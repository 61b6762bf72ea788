# Verified model of My-Ink/graphs

The repository holds 21 small C++ programs. Each one builds an in-memory
graph from its input and runs one classical algorithm on it:
- breadth-first search with `dist`/`prev` arrays and path reconstruction;
- Dijkstra with lazy deletion;
- three-colour DFS (cycle detection, cycle extraction, topological sort);
- two-colour DFS (bipartiteness);
- Kosaraju's strongly connected components and the condensation;
- low-link DFS (cut points, bridges, 2-edge-connected components);
- Hierholzer's Euler walk;
- the decoding of a permutation from edge sums.

The model keeps the programs' own structure:
- The adjacency-list stores are classes whose methods update their lists in place (`graph_store.dfy`, `weighted_store.dfy`, `edge_graph.dfy`).
- Every algorithm is a method over the adjacency lists, with the program's loops and working arrays. Each is proved against a specification: a functional rendering of the same search, or the graph-theoretic property it computes (reachability, shortest walks, colourings, components, orderings).
- A `main` that does more than read the edges, run one algorithm and print its result has a method or function of its own. Reading the input is replaced by a parameter, a sequence of edges.

Shared definitions:

| file | module | contents |
|---|---|---|
| graphs.dfy | `Graphs` | adjacency lists as `seq<seq<int>>`, walks, reachability, cycles, permutations |
| graph_store.dfy | `GraphStore` | the `AdjListsGraph` store: vector, set and multiset lists, the optional extra list of the 1-indexed programs, logs of `add_edge` calls, reading an edge list |
| weighted_store.dfy | `WeightedStore` | the store with one `unordered_map` of weights per vertex |
| edge_graph.dfy | `EdgeGraph` | the store with integer edge ids (`edge_ends_`) and the cached neighbour sets of `FastNeighborsGraph` |
| bfs.dfy, dijkstra.dfy, cycles.dfy, post_order.dfy, kosaraju.dfy, condensation.dfy, low_link.dfy, pair_encoder.dfy | | the algorithms shared by several programs |

Each remaining file models one program, named after it: `knight.dfy` is C_knight_min_path.cpp, `graph_decoding.dfy` is Q_graph_decoding.cpp, and so on. `decoding_lost.dfy` holds the counterexample of the last finding below.

Conventions:
- A container the program iterates in an unspecified order (`unordered_set`, `unordered_multiset`, `unordered_map`) is a sequence in some fixed order. The programs whose printed output depends on that order take it as an input, `lists`: any graph whose list of each vertex holds, as a multiset, the elements the program inserted into it (`GraphStore.Reordered`). Their properties are proved for every such order. The other programs build their store in the order the input is read; see Left out.
- Index errors in the source (undefined behaviour) become preconditions when callers must avoid them, and findings when the program does not.
- `int32_t`/`int64_t` arithmetic is unbounded. The ranges involved are bounded by the vertex counts.

## Model

| member | source | states |
|---|---|---|
| GraphStore.AdjListsGraph.constructor | A_shortest_path.cpp:35-36 | n empty lists, plus the extra list `n_vertices + 1` allocates in the 1-indexed programs |
| GraphStore.AdjListsGraph.AddEdge | A_shortest_path.cpp:42-46 | `add_edge` appends to `from`'s list, and also to `to`'s when undirected; a set list (B_check_bipart.cpp:43-45) inserts only when absent |
| GraphStore.Inserted | B_check_bipart.cpp:43-45 | after an insertion the list holds x and the old elements; a vector list gains one copy of x; a set list stays duplicate-free |
| GraphStore.EdgesAddedMembership | A_shortest_path.cpp:42-46 | after a sequence of `add_edge` calls, u is in v's list iff it was there or some call joined v to u (either way round when undirected) |
| GraphStore.EdgesAddedCount | A_shortest_path.cpp:42-46 | with vector lists, the number of copies of u in v's list grows by the number of calls (v, u), plus the calls (u, v) when undirected |
| GraphStore.AdjListsGraph.AddVertex | H_min_path.cpp:49-52 | `add_vertex` returns the old vertex count, increments it, and appends an empty list |
| GraphStore.IsMultipleEdge | S_bridges.cpp:87-89 | true iff u occurs at least twice in v's list |
| GraphStore.CountTwice | S_bridges.cpp:88 | a count above 1 means two distinct positions hold the value |
| GraphStore.AddEdges | A_shortest_path.cpp:115-119 | `main`'s loop of `add_edge` calls leaves the lists given by the whole call sequence |
| GraphStore.ReadGraph | R_cut_points.cpp:116-121 | the graph read from an edge list: u is a neighbour of v iff an input edge joins them; undirected input gives a symmetric graph |
| GraphStore.ReorderedValid | R_cut_points.cpp:9 | reordering each vertex's list keeps every neighbour in range, each neighbour's multiplicity, membership, and the symmetry of an undirected store: what an `unordered_set` iterated in any order still holds (also S_bridges.cpp:10) |
| GraphStore.CountMultiset | S_bridges.cpp:10 | the number of occurrences of x in a list is its multiplicity in the list's multiset, as `unordered_multiset` counts it |
| Bfs.ShortestPaths | A_shortest_path.cpp:62-82 | BFS from the sources: `dist[t]` is not -1 iff t is reachable from a source; it is then the least number of edges of such a walk, and following `prev` gives a walk of exactly that length |
| Bfs.Seed | A_shortest_path.cpp:63-68 | before the loop every source has distance 0 and is queued, and every other vertex has -1 |
| Bfs.ExpandFront | A_shortest_path.cpp:70-79 | one pass of the queue loop: the new arrays and queue are the scan of the front vertex's neighbours |
| Bfs.DiscoverPrevTree | A_shortest_path.cpp:73-76 | discovering u from v sets `dist[u] = dist[v] + 1` and `prev[u] = v` along an edge, which keeps every `prev` chain a walk back to a source |
| Bfs.DiscoverQueue | A_shortest_path.cpp:73-76 | a vertex is queued only while its distance is -1, so each vertex enters the queue at most once |
| Bfs.SearchDone | A_shortest_path.cpp:62-82 | when the queue is empty, the distances are exactly the reachability and the walk lengths above |
| Bfs.WalkBound | A_shortest_path.cpp:72-76 | every edge out of a reached vertex leads to distance at most one more, so `dist` is at most the length of any walk from a source |
| Bfs.PrevWalk | A_shortest_path.cpp:90-94 | following `prev` from a reached t yields a walk from a source to t with `dist[t] + 1` vertices |
| Bfs.ShortestPath | A_shortest_path.cpp:86-96 | the reconstructed path is empty when `dist[to]` is -1, and otherwise a walk from a source to `to` with `dist[to] + 1` vertices |
| Bfs.FindShortestPath | A_shortest_path.cpp:86-96 | `find_shortest_path` is empty iff `to` is unreachable (which `main` prints as -1, A_shortest_path.cpp:122-123), and otherwise a shortest walk from `from` to `to` |
| Bfs.FindShortestDistance | H_min_path.cpp:91-93 | `find_shortest_distance` is -1 iff `to` is unreachable, and otherwise the least number of edges of a walk |
| Manhattan.CodeCell | E_find_sub.cpp:89-91 | `encode_pair(i, j, m)` is a bijection between the n×m cells and `0 .. n*m-1`: the code gives back its row `c / m` and column `c % m` |
| Manhattan.StepsAreAdjacent | E_find_sub.cpp:101-107 | the right and bottom steps that the constructor adds are exactly the pairs of cells at Manhattan distance 1, with no pair stepping both ways |
| Manhattan.CellSteps | E_find_sub.cpp:101-107 | the right neighbour's code is v + 1 and the bottom one's is v + m; each lies inside the grid iff its guard `j < m - 1` / `i < n - 1` holds |
| Manhattan.SubsBeforeMembers | E_find_sub.cpp:108-111 | after the cells before k, `subs` holds exactly those with a subway, in increasing order without repeats |
| Manhattan.AddCellEdges | E_find_sub.cpp:104-107 | one cell's guarded `add_edge` calls log exactly its in-grid grid steps |
| Manhattan.AddCell | E_find_sub.cpp:101-111 | one cell: its edges are added, and its `has_sub` flag sets its distance to 0 and appends it to `subs` |
| Manhattan.AddRow | E_find_sub.cpp:100-112 | the inner loop over a row's columns keeps the edge log and `subs` for all cells so far |
| Manhattan.AddRows | E_find_sub.cpp:99-113 | the double loop logs every grid step of the n×m grid and collects every subway cell |
| Manhattan.ManhattanCounts | E_find_sub.cpp:99-113 | the lists built from that log join each cell exactly once to each grid neighbour and to nothing else |
| Manhattan.BuildGrid | E_find_sub.cpp:96-113 | the constructor's graph (n*m cells plus the extra list) is the grid graph, and `subs` holds the subway cells |
| Manhattan.StoreValid | E_find_sub.cpp:96-113 | the grid graph is a valid adjacency: u is in v's list iff the cells are adjacent |
| Manhattan.WalkAtLeastDistance | E_find_sub.cpp:115 | every walk in the grid graph has at least as many edges as the Manhattan distance between its ends |
| Manhattan.StaircaseWalk | E_find_sub.cpp:115 | between any two cells there is a walk with exactly their Manhattan distance in edges |
| Manhattan.ExtraUnreached | E_find_sub.cpp:57-58 | the extra vertex n*m of the 1-indexed store layout is never reached from the cells |
| Manhattan.CellsReachable | E_find_sub.cpp:115 | a cell is reachable from the subways iff there is at least one subway |
| Manhattan.WalkFromSourceBound | E_find_sub.cpp:115 | a walk from a subway to t is at least as long as the Manhattan distance from its start to t |
| Manhattan.ManhattanGraph | E_find_sub.cpp:96-117 | the constructor's distances are the multi-source BFS distances from the subway cells on the grid graph |
| Manhattan.NearestSubway | E_find_sub.cpp:115-116 | those BFS distances are -1 everywhere iff there is no subway, and are otherwise the least Manhattan distance to a subway |
| Manhattan.FindSubways | E_find_sub.cpp:143-149 | the printed value of each cell is the Manhattan distance to its nearest subway, -1 when there is none |
| ChainGraph.InsertChain | H_min_path.cpp:96-105 | `insert_chain` leaves the lists given by the chain construction: unchanged for 0 links, otherwise `n_links` new vertices, each by `add_vertex` |
| ChainGraph.ChainShape | H_min_path.cpp:98-104 | with k ≥ 1 links: k new lists, one edge appended to `begin`'s list, no other old list changed, each chain vertex with exactly one edge |
| ChainGraph.ChainWalk | H_min_path.cpp:98-104 | the chain is a walk begin → l1 → … → lk → end of k + 1 edges |
| ChainGraph.ChainKeepsValid | H_min_path.cpp:96-105 | all new edges end at existing vertices, so the adjacency stays valid |
| ChainGraph.AddWeightedEdge | H_min_path.cpp:129-132 | `main`'s edge step: a chain of `weight - 1` links when weight > 1, otherwise one `add_edge` |
| ChainGraph.WeightedEdgeWalk | H_min_path.cpp:129-132 | after that step there is a walk from `from` to `to` of exactly `weight` unit edges (one edge when weight ≤ 1) |
| ChainGraph.BuiltGraph | H_min_path.cpp:123-133 | the graph after all edges of the input: at least the n input vertices, every edge inside the graph |
| ChainGraph.MinPathLength | H_min_path.cpp:117-135 | the printed number is -1 iff `finish` is unreachable in that graph, and otherwise the least number of unit edges of a walk from `start` |
| Bipartite.WalkAlternates | B_check_bipart.cpp:86-93 | under a proper two-colouring the colour flips along every edge, so a walk's ends have the same colour iff it has an odd number of vertices |
| Bipartite.OddConflict | B_check_bipart.cpp:91-92 | two adjacent vertices that the search gave the same colour, each by a walk of matching parity from the root, rule out every proper two-colouring |
| Bipartite.ExtendWitness | B_check_bipart.cpp:87-88 | recursing into neighbour u with `!color` keeps the invariant that a vertex's colour is the parity of a walk from the root |
| Bipartite.ScannedAfterChild | B_check_bipart.cpp:87-89 | after a successful recursive call the neighbour loop's invariant holds one position further |
| Bipartite.ScannedVisited | B_check_bipart.cpp:91-93 | a visited neighbour of the other colour is passed over, keeping the loop invariant |
| Bipartite.ScannedAll | B_check_bipart.cpp:86-95 | when the loop ends, every edge out of the newly visited vertices joins different colours |
| Bipartite.ColourFrom | B_check_bipart.cpp:77-96 | `is_bipartite_impl_` colours v with `color` and only grows `visited`; true means every edge among the new vertices joins different colours, false means two adjacent visited vertices share a colour |
| Bipartite.SearchExtendsDone | B_check_bipart.cpp:115-118 | on an undirected graph a successful search from scratch adds a closed, properly coloured set to the vertices already checked |
| Bipartite.SearchRound | B_check_bipart.cpp:115-119 | one round of the outer loop: with `visited` reset, success extends the properly coloured closed set by v, failure proves the graph not two-colourable |
| Bipartite.IsBipartite | B_check_bipart.cpp:112-122 | `is_bipartite` over vertices 1..n of the undirected 1-indexed store is true iff the graph has a proper two-colouring |
| PairEncoding.TruncDiv | C_knight_min_path.cpp:31 | C++ integer division, rounding toward zero: Euclidean division on non-negative operands, and a non-negative quotient when the signs agree |
| PairEncoding.TruncRem | C_knight_min_path.cpp:31 | C++ `%` agrees with the Euclidean remainder when the dividend is non-negative and the divisor positive |
| PairEncoding.Decode | C_knight_min_path.cpp:28-32 | `decode` is (0, 0) when the key is 0, and otherwise a quotient/remainder pair that recombines to the code |
| PairEncoding.DecodeEncodeOrdered | C_knight_min_path.cpp:22-31 | with an ordered encoder and 0 ≤ second < key, `decode(encode(a, b)) == (a, b)` |
| PairEncoding.DecodeEncodeUnordered | S_bridges.cpp:21-31 | with an unordered encoder and both values below the key, `decode(encode(a, b))` is the sorted pair (min, max) |
| PairEncoding.EncodeSymmetric | S_bridges.cpp:21-25 | an unordered encoder gives `encode(a, b) == encode(b, a)` |
| PairEncoding.EncodeInjective | C_knight_min_path.cpp:22-25 | an ordered encoder gives distinct codes to distinct pairs with second component below the key |
| PairEncoding.EncodeUnorderedInjective | S_bridges.cpp:21-25 | an unordered encoder gives two pairs below the key the same code iff they are equal or swapped |
| PairEncoding.QuotientInRange | C_knight_min_path.cpp:153-155 | a code below rows × key splits into a row below `rows` and a column below the key |
| PairEncoding.CodeInRange | C_knight_min_path.cpp:153-155 | a cell inside the grid gets a code in `[0, n_cells)` |
| PairEncoding.DivModUnique | C_knight_min_path.cpp:28-31 | dividing `q * key + r` (0 ≤ r < key) by the key gives back q and r |
| PairEncoding.EncodePairBijective | E_find_sub.cpp:89-91 | `encode_pair(i, j, m)` numbers the cells of an n×m grid one-to-one onto `[0, n*m)` |
| Knight.CellCode | C_knight_min_path.cpp:138-147 | the grid's ordered encoder with key `n_cols` gives a board cell the code `x * n + y` inside the board, and decodes it back |
| Knight.CellInStore | C_knight_min_path.cpp:164 | a board cell's code is a vertex of the store of `n_cells()` vertices |
| Knight.CodeCell | C_knight_min_path.cpp:153-155 | every code in `[0, n_cells)` is the code of a board cell |
| Knight.KnightMovesExact | C_knight_min_path.cpp:168-177 | the eight `knight_moves` are distinct and are exactly the offsets with one coordinate ±1 and the other ±2 |
| Knight.KnightStepSymmetric | C_knight_min_path.cpp:168-177 | a knight move can be made back |
| Knight.MovesDistinct | C_knight_min_path.cpp:182-186 | two different moves from one cell never reach the same target |
| Knight.TargetIsKnightStep | C_knight_min_path.cpp:183-185 | every edge added from (x, y) joins its code to an on-board cell one knight move away |
| Knight.KnightStepIsTarget | C_knight_min_path.cpp:182-186 | every on-board knight move from (x, y) is among the eight tried moves |
| Knight.TargetsAreKnightSteps | C_knight_min_path.cpp:182-186 | the targets of the move loop are exactly the knight steps out of the cell |
| Knight.TargetAmongNext | C_knight_min_path.cpp:182-186 | trying one more move adds exactly its target, which was not yet a target |
| Knight.TryKnightMove | C_knight_min_path.cpp:183-186 | one move: `add_edge(code, target)` is called iff `contains_cell` accepts the target |
| Knight.AddKnightMoves | C_knight_min_path.cpp:181-187 | the move loop of one cell calls `add_edge` once for each knight step out of it |
| Knight.AddKnightMovesColumn | C_knight_min_path.cpp:180-188 | the y loop keeps the log: one call per knight step out of each cell handled so far |
| Knight.GenerateKnightMovesGraph | C_knight_min_path.cpp:163-192 | the undirected graph holds, in each cell's list, every knight neighbour exactly twice (once from each end) and nothing else |
| Knight.KnightCounts | C_knight_min_path.cpp:164 | one undirected call per ordered knight step gives each neighbour two copies in each list (also C_knight_min_path.cpp:182-186) |
| Knight.KnightGraphEdges | C_knight_min_path.cpp:163-192 | in the knight graph u is a neighbour of v iff they are a knight move apart, and every edge stays on the board |
| Knight.KnightWalks | C_knight_min_path.cpp:163-192 | walks of the knight graph are exactly the sequences of knight moves on the board |
| Knight.KnightPath | C_knight_min_path.cpp:198-215 | the path `main` prints is empty iff no knight route exists, and otherwise a shortest knight route, decoding to the start and finish cells |
| FourDigits.IsCorrect | D_4_digits.cpp:131-140 | `is_correct(n)` holds iff 1111 ≤ n ≤ 9999 and the last digit is not 0: the loop tests only `number % 10`, and `b` plays no part |
| FourDigits.OfDigits | D_4_digits.cpp:142-148 | the quotients and remainders both rotations take, read off the four digits |
| FourDigits.ToDigits | D_4_digits.cpp:142-148 | every number in [0, 9999] has four decimal digits |
| FourDigits.ShiftsRoundTrip | D_4_digits.cpp:142-148 | both rotations map [0, 9999] into itself and undo each other |
| FourDigits.DigitCallsAreEdges | D_4_digits.cpp:154-159 | the calls made for a correct i are exactly its guarded edges: +1000 when i < 9111, −1 when the last digit exceeds 1, and both rotations |
| FourDigits.AddDigitEdges | D_4_digits.cpp:153-159 | one loop round adds exactly i's edges to the log |
| FourDigits.FillGraph | D_4_digits.cpp:150-162 | `fill_graph`'s directed store of 10000 lists joins v to u iff v is correct and u is one of its four targets |
| FourDigits.DecrementKeepsLastDigit | D_4_digits.cpp:156-157 | the decrement edge never lowers a last digit below 1 |
| FourDigits.ZeroFreeIncrement | D_4_digits.cpp:154-155 | for numbers with four non-zero digits, `i < 9111` means "first digit below 9", and the target keeps four non-zero digits |
| FourDigits.IncrementLeavesStore | D_4_digits.cpp:132-138 | because only the last digit is checked, a correct number in 9001..9110 (9001, say) gets an increment edge beyond 9999 (also D_4_digits.cpp:154-155) |
| FourDigits.ZeroFreeEdge | D_4_digits.cpp:154-159 | every edge out of a number with four non-zero digits leads to another such number |
| FourDigits.ZeroFreeSet | D_4_digits.cpp:150-162 | the set of numbers with four non-zero digits |
| FourDigits.ZeroFreeClosed | D_4_digits.cpp:150-162 | that set is closed under the edges of the digits graph, so BFS from inside it stays inside the store |
| FourDigits.DigitWalkIsWalk | D_4_digits.cpp:150-162 | a walk along the puzzle's moves from a zero-free number is a walk of the digits graph |
| FourDigits.ZeroFreeOnWalk | D_4_digits.cpp:154-159 | every number on such a walk has four non-zero digits |
| FourDigits.WalkIsDigitWalk | D_4_digits.cpp:150-162 | every walk of the digits graph is a sequence of the puzzle's moves |
| FourDigits.FindNumberPath | D_4_digits.cpp:100-110 | from a zero-free start the printed path is empty iff no sequence of moves reaches `finish`, and otherwise a shortest such sequence (also D_4_digits.cpp:168-174) |
| Races.LastWall | F_races.cpp:133-137 | `nearest_wall_pos` of the left-to-right sweep: the last wall before position k, or -1, with no wall in between |
| Races.NextWall | F_races.cpp:143-147 | `nearest_wall_pos` of the right-to-left sweep: the first wall after position k, or the line's length, with no wall in between |
| Races.MidBefore | F_races.cpp:139 | the target `(w + j + 1) / 2` lies in [w + 1, j], so it is free whenever j is |
| Races.MidAfter | F_races.cpp:149 | the target `(j + W) / 2` lies in [j, W − 1], so it is free whenever j is |
| Races.CellOfCode | F_races.cpp:135 | a position `i * width + j` splits back into its row and column |
| Races.RowMoveTarget | F_races.cpp:136-149 | a row move from a cell ends on a free cell of the same row |
| Races.ColumnMoveTarget | F_races.cpp:158-171 | a column move from a cell ends on a free cell of the same column |
| Races.MoveTargetsFree | F_races.cpp:136-139 | wall cells get no outgoing edges, and every edge target is a free cell (also F_races.cpp:146-149, F_races.cpp:158-161, F_races.cpp:168-171) |
| Races.SameCell | F_races.cpp:135 | row and column determine the position |
| Races.SweepRight | F_races.cpp:133-140 | the left-to-right sweep of row i adds, from each free cell, exactly its edge to the midpoint after the last wall |
| Races.SweepLeft | F_races.cpp:143-150 | the right-to-left sweep of row i adds, from each free cell, exactly its edge to the midpoint before the next wall |
| Races.SweepDown | F_races.cpp:155-162 | the top-to-bottom sweep of column j, as SweepRight for the column |
| Races.SweepUp | F_races.cpp:165-172 | the bottom-to-top sweep of column j, as SweepLeft for the column |
| Races.RowSwept | F_races.cpp:131-151 | the two row sweeps together add exactly the row moves of the cells of row i |
| Races.ColumnSwept | F_races.cpp:153-173 | the two column sweeps together add exactly the column moves of the cells of column j |
| Races.AddRowMoves | F_races.cpp:132-150 | one round of the row loop logs the row moves of row i |
| Races.AddColumnMoves | F_races.cpp:154-172 | one round of the column loop logs the column moves of column j |
| Races.AddAllRowMoves | F_races.cpp:131-151 | the row loop logs every row move of the map |
| Races.AddAllColumnMoves | F_races.cpp:153-173 | after the column loop the log holds exactly the four kinds of moves of every free cell |
| Races.GenerateMovesGraph | F_races.cpp:127-176 | the directed set store has u in v's list iff u is one of v's four midpoint moves, each list without repeats |
| Races.MovesGraphValid | F_races.cpp:127-176 | every edge of the moves graph stays on the map |
| Races.MoveWalks | F_races.cpp:127-176 | the walks of the moves graph are exactly the sequences of moves |
| Races.MinMoves | F_races.cpp:99-109 | the printed number is -1 iff no sequence of moves leads from start to finish, and otherwise the least number of moves (also F_races.cpp:207-208) |
| Gutters.NeighbourCell | G_gutters.cpp:201-208 | the four guarded positions `pos ∓ width`, `pos ∓ 1` are exactly the orthogonal neighbours of cell (i, j) inside the grid |
| Gutters.NeighbourInGrid | G_gutters.cpp:201-208 | the bounds guards keep every neighbour inside the grid |
| Gutters.NeighbourSymmetric | G_gutters.cpp:201-208 | the neighbour relation is symmetric |
| Gutters.CellFlows | G_gutters.cpp:200-208 | cell (i, j) flows to u iff u is an in-grid orthogonal neighbour whose height is at most its own |
| Gutters.CellDone | G_gutters.cpp:200-209 | after cell (i, j) the store holds the flow edges of every cell up to it and none of the later ones |
| Gutters.FlowTargets | G_gutters.cpp:201-208 | the targets one cell's four guarded `add_edge` calls add |
| Gutters.AddFlow | G_gutters.cpp:202 | one `add_edge(pos, u)` into the directed set store adds u to pos's targets and changes no other list |
| Gutters.AddFlows | G_gutters.cpp:201-208 | the four guarded calls give pos's list exactly the lower-or-equal neighbours |
| Gutters.FlowCell | G_gutters.cpp:200-208 | one round of the inner loop extends the built prefix by one cell |
| Gutters.FlowRow | G_gutters.cpp:199-209 | one round of the outer loop extends the built prefix by a row |
| Gutters.GenerateFlowGraph | G_gutters.cpp:196-212 | `generate_flow_graph` has `length * width` vertices, and v's list holds u iff u is an in-grid orthogonal neighbour no higher than v |
| Gutters.LevelNeighbours | G_gutters.cpp:201-208 | neighbours of equal height have edges both ways, so they share a strongly connected component |
| Gutters.EmptyIffSink | G_gutters.cpp:181-187 | a condensation vertex has an empty list iff no edge leaves its component (also G_gutters.cpp:235) |
| Gutters.CountSinks | G_gutters.cpp:233-237 | the counting loop returns the number of components that no edge leaves |
| Gutters.Gutters | G_gutters.cpp:230-238 | the printed answer is the number of sink components of the flow graph |
| WeightedStore.Emplaced | HF_min_path.cpp:43 | `unordered_map::emplace` adds the key with the given weight only when it is absent; an existing entry and every other entry are kept |
| WeightedStore.WeightedAdjListsGraph.constructor | HF_min_path.cpp:35-36 | n empty maps |
| WeightedStore.WeightedAdjListsGraph.AddEdge | HF_min_path.cpp:42-46 | `add_edge` emplaces (to, weight) into `from`'s map and, when undirected, (to, weight) again into `to`'s own map, the self-loop the source writes |
| WeightedStore.FirstWeightKept | HF_min_path.cpp:43 | after a sequence of directed calls, u is in v's map iff it was or some call named (v, u); an old weight is kept, otherwise the weight of the first such call |
| WeightedStore.FirstCallExists | HF_min_path.cpp:43 | a pair that was called has a first call |
| WeightedStore.UniformWeight | J_traffic_rules.cpp:293-299 | when every call for a new pair carries one weight, the stored edge has that weight |
| Dijkstra.WalkExtend | HF_min_path.cpp:72-73 | extending a weighted walk by an edge adds that edge's weight |
| Dijkstra.WalkWeightNonNegative | HF_min_path.cpp:72-73 | with non-negative weights every walk has non-negative weight |
| Dijkstra.TopIndex | HF_min_path.cpp:57 | `priority_queue::top` picks an entry no smaller than any other; keys are pushed negated, so it holds the least tentative distance (also HF_min_path.cpp:64) |
| Dijkstra.Without | HF_min_path.cpp:65 | `pop` removes that one entry and keeps all others |
| Dijkstra.WitnessesLowered | HF_min_path.cpp:72-74 | lowering `dist[u]` to the weight of a walk to u keeps every finite distance witnessed by a walk |
| Dijkstra.BoundedLowered | HF_min_path.cpp:72-74 | lowering `dist[u]` and pushing `(-dist[u], u)` keeps every queue key an upper bound of its vertex's distance |
| Dijkstra.OrderedLowered | HF_min_path.cpp:72-74 | with non-negative weights, the new entry is no smaller than the distance of any processed vertex |
| Dijkstra.RelaxedLowered | HF_min_path.cpp:72-74 | relaxation only lowers `dist`, so the edges already relaxed stay relaxed |
| Dijkstra.RelaxEdge | HF_min_path.cpp:71-75 | one relaxation: `dist[u]` ends at most `dist[v] + w` and at most its old value, nothing else changes, and the loop state is kept |
| Dijkstra.NextKey | HF_min_path.cpp:70 | the iteration over an `unordered_map` takes some remaining key, in an order the model leaves open |
| Dijkstra.RelaxNeighbours | HF_min_path.cpp:70-76 | after the neighbour loop, every edge out of v is relaxed and the loop state holds with no open vertex |
| Dijkstra.RelaxedFromStep | HF_min_path.cpp:70-76 | relaxing one more neighbour extends the set of relaxed edges out of v |
| Dijkstra.StateClosed | HF_min_path.cpp:76 | once all of v's edges are relaxed, v is no longer open |
| Dijkstra.PopAndProcess | HF_min_path.cpp:64-76 | one round of the loop keeps the state, and either processes a new vertex or shrinks the queue |
| Dijkstra.PopProcessed | HF_min_path.cpp:66-67 | a popped vertex that is already processed is skipped without changing the state |
| Dijkstra.PopUnprocessed | HF_min_path.cpp:64-68 | a popped unprocessed vertex has a finite distance and becomes processed; with non-negative weights that distance is final |
| Dijkstra.ShortestDistances | HF_min_path.cpp:56-80 | every finite `dist[t]` is the weight of a walk from the source; with non-negative weights it is the least such weight, `INT32_MAX` marking unreachable vertices |
| Dijkstra.Finished | HF_min_path.cpp:63-77 | an empty queue leaves the distances witnessed by walks and, with non-negative weights, minimal |
| Dijkstra.WalkLowerBound | HF_min_path.cpp:63-77 | with all edges out of finite vertices relaxed, no walk from the source weighs less than the distance of its end |
| Dijkstra.ShortestDistance | HF_min_path.cpp:84-86 | `find_shortest_distance` is a walk weight when finite, at most that of every walk when the weights are non-negative, and 0 from a vertex to itself |
| TrafficRules.RowCalls | J_traffic_rules.cpp:295-298 | the calls for one condensation vertex: each edge v → u as (v, u, 0) followed by (u, v, 1) |
| TrafficRules.RowCallsInRange | J_traffic_rules.cpp:295-298 | those calls name vertices of the weighted store |
| TrafficRules.PenaltyCalls | J_traffic_rules.cpp:294-299 | the calls of the first k rounds of the loop stay inside the store |
| TrafficRules.PenaltyCallsFacts | J_traffic_rules.cpp:294-299 | the loop makes only weight-0 calls along edges and weight-1 calls against them, and makes both for every edge |
| TrafficRules.PenaltyStore | J_traffic_rules.cpp:293-299 | the weighted store the loop builds, one map per condensation vertex |
| TrafficRules.NoOpposite | J_traffic_rules.cpp:182-188 | the condensation is acyclic, so no edge has an opposite edge |
| TrafficRules.PenaltyEdge | J_traffic_rules.cpp:294-299 | u is in v's map iff v and u are joined by a condensation edge either way |
| TrafficRules.PenaltyWeight | J_traffic_rules.cpp:296-297 | the weight kept is 0 along a condensation edge and 1 against it: no opposite edge competes, so `emplace` keeps a single weight |
| TrafficRules.PenaltyWeights | J_traffic_rules.cpp:293-299 | the built store is the penalty graph: roads both ways, 0 forward, 1 backward |
| TrafficRules.PenaltyGraphFacts | J_traffic_rules.cpp:293-299 | the penalty graph is a valid weighted graph with non-negative weights, which Dijkstra needs |
| TrafficRules.PenaltyWalk | J_traffic_rules.cpp:293-299 | its walks are the walks along roads in either direction, weighing the number of roads taken backwards |
| TrafficRules.RowStep | J_traffic_rules.cpp:296-297 | one round of the inner loop is the two `emplace` calls for one edge |
| TrafficRules.PenaltyRow | J_traffic_rules.cpp:295-298 | the inner loop over v's neighbours applies v's calls in order |
| TrafficRules.PenaltyGraph | J_traffic_rules.cpp:293-299 | the loop over the condensation builds exactly the penalty store |
| TrafficRules.Penalty | J_traffic_rules.cpp:306-307 | a request's printed value is the least number of roads driven backwards between the two components, -1 when Dijkstra leaves `INT32_MAX` |
| TrafficRules.Answers | J_traffic_rules.cpp:303-308 | every request is answered by that least penalty |
| TrafficRules.TrafficRules | J_traffic_rules.cpp:278-309 | `main`: for every iteration order `lists` of the directed input's `unordered_set` lists, the components and condensation of `lists`, the penalty graph over it, and the least penalty for each request |
| Cycles.ColouredStart | N_top_sort.cpp:80 | all vertices start white (colour 0), which satisfies the colouring invariant |
| Cycles.Enter | N_top_sort.cpp:61 | colouring a white vertex 1 on entry extends the grey search path by it and keeps the invariant |
| Cycles.BackEdge | N_top_sort.cpp:63-64 | an edge from the top of the search path to a grey vertex closes a cycle of the graph |
| Cycles.Finish | N_top_sort.cpp:71-73 | colouring v 2 once all its neighbours are black puts v in front of the finished list, keeping every edge among finished vertices forward |
| Cycles.WalkGoesForward | N_top_sort.cpp:55-75 | along a walk through an order whose edges go forward, the positions increase |
| Cycles.OrderedAcyclic | N_top_sort.cpp:79-91 | a graph with a topological order has no cycle |
| Cycles.AllFinished | N_top_sort.cpp:83-91 | once every vertex is black the finished list is a topological order: every vertex exactly once, every edge forward |
| Cycles.ScanStart | N_top_sort.cpp:61-62 | the neighbour loop starts with v grey on the path |
| Cycles.ScanBlack | N_top_sort.cpp:62-70 | a black neighbour is passed over |
| Cycles.ScanChild | N_top_sort.cpp:66-69 | a white neighbour whose recursive call returns false is black afterwards and the loop invariant moves on |
| Cycles.ScanEnd | N_top_sort.cpp:71-74 | at the end of the loop v turns black and is prepended to the finished list |
| Cycles.SweptSkip | N_top_sort.cpp:84 | the outer loop passes over a vertex that is not white |
| Cycles.SweptVisit | N_top_sort.cpp:84-89 | a search from a white vertex that finds no cycle leaves it black and the invariant moved on |
| Cycles.SweptAll | N_top_sort.cpp:79-91 | after the outer loop, the finished list is a topological order and the graph is acyclic |
| TopSort.WriteFront | N_top_sort.cpp:72-73 | `*it = v; ++it` through the reverse iterator puts v in front of the vertices written so far |
| TopSort.Visit | N_top_sort.cpp:55-75 | `top_sort_impl_` only darkens colours; true means the graph has a cycle; false leaves v black and `sorted`'s filled suffix equal to the finished list |
| TopSort.TopSort | N_top_sort.cpp:79-92 | `top_sort` is empty when the graph has a cycle, and otherwise holds every vertex exactly once with every edge going forward |
| Multicolored.HasCycleFrom | O_multicolored_graph.cpp:53-67 | `has_cycle_impl_` colours v 1 on entry and only darkens colours; true means the graph has a cycle, false leaves v coloured 2 with the invariant kept |
| Multicolored.HasCycleCheck | O_multicolored_graph.cpp:71-78 | `has_cycle`, starting only from colour-0 vertices, is true iff the directed graph has a cycle |
| Multicolored.BuiltStep | O_multicolored_graph.cpp:99-105 | reading one character adds the road i → next for 'R' and next → i otherwise |
| Multicolored.BuiltRow | O_multicolored_graph.cpp:96-106 | a finished row leaves every road of rows up to i stored once |
| Multicolored.AddRow | O_multicolored_graph.cpp:97-105 | one row of input adds exactly its roads |
| Multicolored.Multicolored | O_multicolored_graph.cpp:91-108 | `main` stores exactly one road per pair i < j, in the direction its colour gives, and answers YES iff that tournament has no cycle |
| FindCycle.BackwardCycleIsCycle | K_find_cycle.cpp:126-127 | a sequence whose steps are edges read backwards, printed in reverse, is a cycle of the graph |
| FindCycle.PathCycle | K_find_cycle.cpp:91-96 | the cycle closed by a back edge to `path[k]`: that vertex, then the path from the top back down to just above it |
| FindCycle.EventCycle | K_find_cycle.cpp:64-67 | meeting grey `path[k]` from the top v and setting `prev[path[k]] = v` makes following `prev` from `path[k]` run round that cycle |
| FindCycle.TraceEnter | K_find_cycle.cpp:69-70 | the tree edge `prev[u] = v` to a white u extends the chain of `prev` links along the search path |
| FindCycle.TraceReturn | K_find_cycle.cpp:71 | a child's search that finds nothing changes `prev` only at vertices that were white |
| FindCycle.TraceEnd | K_find_cycle.cpp:61-75 | the whole search from v changes `prev` only at vertices that were white before it |
| FindCycle.FindFrom | K_find_cycle.cpp:54-76 | the search from a white v, returning at the first cycle: true leaves `cycle_start` and `prev` reading off a cycle; false leaves v black, `cycle_start` at -1 and the colouring invariant kept |
| FindCycle.ReadCycle | K_find_cycle.cpp:91-96 | the reconstruction loop follows `prev` from `cycle_start` until it returns there, producing exactly that cycle |
| FindCycle.FindCycle | K_find_cycle.cpp:80-98 | `find_cycle` is empty iff the graph is acyclic, and otherwise a cycle listed backwards, each vertex once |
| FindCycle.ImplAsWritten | K_find_cycle.cpp:54-76 | `find_cycle_impl_` as written (the child's answer is kept in `ans` and the scan goes on): no vertex turns white again, and `cycle_start` stays -1 or a vertex |
| FindCycle.ScanAsWritten | K_find_cycle.cpp:63-73 | the neighbour loop as written, with the same guarantees, and every `prev` entry stays -1 or a vertex |
| FindCycle.RunAsWritten | K_find_cycle.cpp:84-87 | the outer loop as written, stopping at the first true; `cycle_start` stays -1 or a vertex, and so does every `prev` entry |
| FindCycle.FollowAsWritten | K_find_cycle.cpp:91-96 | the reconstruction as written, which reports an index outside the array when `prev` leads there; with every `prev` entry -1 or a vertex, that index is -1 |
| FindCycle.FindCycleAsWritten | K_find_cycle.cpp:80-98 | `find_cycle` as written, with the walk back through `prev` bounded by fuel: an acyclic graph gives the empty answer, and a read outside the array is always `prev[-1]` |
| FindCycle.WalkBackEdge | K_find_cycle.cpp:64-67 | an edge from the end of a walk back to a vertex on it closes a cycle |
| FindCycle.ImplAcyclic | K_find_cycle.cpp:54-76 | on an acyclic graph `find_cycle_impl_` as written, started from a vertex that is not grey, returns false, leaves `cycle_start` at -1, keeps exactly the search path grey and leaves no black vertex with a white neighbour |
| FindCycle.ScanAcyclic | K_find_cycle.cpp:63-73 | on an acyclic graph the neighbour loop as written never meets a grey vertex, so line 65 is never reached and v ends black |
| FindCycle.RunAcyclic | K_find_cycle.cpp:84-87 | on an acyclic graph the outer loop as written, restarts at finished vertices included, leaves `cycle_start` at -1 |
| FindCycle.ExamplesValid | K_find_cycle.cpp:107-119 | the two example inputs (0→1, 0→3, 1→2, 2→1, 3→2 in both orders of 0's list) are graphs with the cycle 1→2→1 |
| FindCycle.UpVisit1 | K_find_cycle.cpp:63-75 | in the first example the search from 1 finds the cycle and leaves 1 grey |
| FindCycle.UpVisit0 | K_find_cycle.cpp:69-73 | the search from 0 then goes on to 3, whose edge to 2 overwrites `prev[2]` and `cycle_start` |
| FindCycle.DownVisit3 | K_find_cycle.cpp:63-75 | in the second example the search from 3 reaches 2 and then 1, closing the cycle at 2 |
| FindCycle.DownVisit0 | K_find_cycle.cpp:69-73 | the search from 0 then goes on to 1, which is still grey, and overwrites `prev[1]` and `cycle_start` |
| FindCycle.AsWrittenReadsOutside | K_find_cycle.cpp:71 | on both example graphs, which have cycles, the reconstruction as written follows `prev` to -1 and reads `prev[-1]` (also K_find_cycle.cpp:92-95) |
| PostOrder.Enter | J_traffic_rules.cpp:106 | marking v viewed on entry pushes it on the search path and keeps the search invariant |
| PostOrder.StaysOut | J_traffic_rules.cpp:107-110 | a walk through unfinished vertices never enters the finished set, since every neighbour of a finished vertex was viewed |
| PostOrder.GrownFewer | J_traffic_rules.cpp:106 | viewing a vertex leaves fewer unviewed vertices, which bounds the recursion |
| PostOrder.ScanStart | J_traffic_rules.cpp:106-107 | the neighbour loop starts with v viewed on the path |
| PostOrder.ScanViewed | J_traffic_rules.cpp:108 | a viewed neighbour is passed over |
| PostOrder.ScanChild | J_traffic_rules.cpp:108-109 | after the recursive call the neighbour is viewed and what it finished is reachable from it |
| PostOrder.ScanEnd | J_traffic_rules.cpp:111-112 | writing v through the reverse iterator puts it in front of the vertices it finished, all reachable from v |
| PostOrder.LateFront | J_traffic_rules.cpp:100-113 | whatever reaches v through the vertices finished after it is reachable from v |
| PostOrder.Visit | J_traffic_rules.cpp:100-113 | `top_sort_impl_` views v, only grows `viewed`, and writes in front of `sorted`'s filled suffix vertices reachable from v, v first, keeping the late-reaching property |
| PostOrder.AllListed | J_traffic_rules.cpp:154-163 | a repeat-free list of vertices that contains every vertex has n entries |
| PostOrder.SearchStart | J_traffic_rules.cpp:155-157 | before the loop nothing is viewed and nothing written |
| PostOrder.SearchDone | J_traffic_rules.cpp:158-162 | once every vertex is viewed, `sorted` holds every vertex exactly once, and whatever reaches `sorted[i]` within `sorted[i..]` is reachable from it |
| PostOrder.ReversePostOrder | J_traffic_rules.cpp:154-163 | `top_sort` returns every vertex exactly once, in reverse post-order: each `sorted[i]` reaches every vertex that reaches it within `sorted[i..]` |
| Kosaraju.InvStep | J_traffic_rules.cpp:168-169 | `inv_g.add_edge(u, v)` for the next edge v → u records that edge reversed |
| Kosaraju.InvRow | J_traffic_rules.cpp:167-170 | finishing v's neighbours moves the reading on to the next vertex |
| Kosaraju.InvertRow | J_traffic_rules.cpp:168-169 | one round of the outer loop adds the reverses of all of v's edges |
| Kosaraju.BuildInverse | J_traffic_rules.cpp:166-170 | `inv_g` has u → v iff `g` has v → u, each list without repeats |
| Kosaraju.ReverseWalk | J_traffic_rules.cpp:166-170 | a walk of `g` read backwards is a walk of `inv_g` |
| Kosaraju.MarkStart | J_traffic_rules.cpp:121 | `components[v] = component_id` on entry keeps the marking invariant |
| Kosaraju.AmongStep | J_traffic_rules.cpp:122-124 | an unlabelled neighbour in `inv_g` is reached from the root through unlabelled vertices |
| Kosaraju.MarkChild | J_traffic_rules.cpp:123-124 | after the recursive call the neighbour carries the id and the loop invariant moves on |
| Kosaraju.MarkEnd | J_traffic_rules.cpp:122-125 | the end of the neighbour loop keeps the invariant |
| Kosaraju.KeptFewer | J_traffic_rules.cpp:121 | labelling a vertex leaves fewer unlabelled vertices, which bounds the recursion |
| Kosaraju.MarkFrom | J_traffic_rules.cpp:115-126 | `scc_impl_` gives v the id, changes only unlabelled entries, and labels only vertices reached from the root in `inv_g` through unlabelled ones |
| Kosaraju.MarkClosed | J_traffic_rules.cpp:115-126 | every vertex reached from the root in `inv_g` through unlabelled ones gets the id |
| Kosaraju.Marked | J_traffic_rules.cpp:176-177 | after `scc_impl_(inv_g, v, ...)` a vertex has the new id iff it was unlabelled and reaches v in `g` through unlabelled vertices; all others are unchanged |
| Kosaraju.MutualTrans | J_traffic_rules.cpp:165-180 | mutual reachability is transitive and symmetric |
| Kosaraju.WalkSplit | J_traffic_rules.cpp:165-180 | a walk's start reaches each of its vertices, and each reaches its end |
| Kosaraju.FreeLate | J_traffic_rules.cpp:174-179 | in loop order, unlabelled vertices all come from `sorted[i..]` |
| Kosaraju.Component | J_traffic_rules.cpp:174-179 | thanks to the reverse post-order, the vertices the second pass labels from `sorted[i]` are exactly those mutually reachable with it |
| Kosaraju.LabelSkip | J_traffic_rules.cpp:176 | a vertex already labelled is passed over |
| Kosaraju.LabelStep | J_traffic_rules.cpp:176-178 | labelling the strongly connected component of `sorted[i]` with a fresh id keeps the loop invariant |
| Kosaraju.LabelInit | J_traffic_rules.cpp:173-174 | before the loop every vertex is -1 and no id is used |
| Kosaraju.LabelAll | J_traffic_rules.cpp:174-180 | after the loop the labels are the strongly connected components |
| Kosaraju.MarkInit | J_traffic_rules.cpp:176-177 | a search starting at an unlabelled vertex starts from a valid marking |
| Kosaraju.AssignComponents | J_traffic_rules.cpp:173-180 | every vertex gets exactly one id in [0, `component_id`), every id is used, and two vertices share an id iff they reach each other |
| Condensation.CrossStep | J_traffic_rules.cpp:184-186 | reading one more edge adds at most the one crossing between distinct components it makes |
| Condensation.CondStep | J_traffic_rules.cpp:185-186 | `cond.add_edge(components[v], components[u])` when the components differ keeps the lists equal to the crossings read so far |
| Condensation.CondRow | J_traffic_rules.cpp:183-187 | finishing v's neighbours moves the reading to the next vertex |
| Condensation.CondenseRow | J_traffic_rules.cpp:184-187 | one round of the outer loop adds the crossings of v's edges |
| Condensation.Condense | J_traffic_rules.cpp:182-188 | the condensation lists hold each crossing pair of components exactly once, both ways in the undirected variant (also L_piggy_bank.cpp:112-118) |
| Condensation.BuildCondensation | J_traffic_rules.cpp:165-191 | `build_condensation`: the labels are the strongly connected components numbered `0 .. cond.size()-1`, the edges are exactly the crossings, and no component has an edge to itself (also L_piggy_bank.cpp:95-121) |
| Condensation.CondWalkReaches | J_traffic_rules.cpp:182-188 | a walk of the condensation comes from a walk of the graph between any members of its end components |
| Condensation.CondensationAcyclic | J_traffic_rules.cpp:182-188 | the directed condensation has no cycle |
| Condensation.SymmetricReaches | M_chats.cpp:41-45 | in a graph that stores every edge both ways, reachability is symmetric |
| Condensation.UndirectedComponents | M_chats.cpp:95-121 | on an undirected graph the components are the connected components, and the condensation has no edges at all |
| Chats.GroupLists | M_chats.cpp:147-149 | `comp_lists[comp[v]].push_back(v)` for v in increasing order: every list is ascending, holds only vertices of its component, every vertex is in its component's list, and the sizes add up to n |
| Chats.GroupsAreComponents | M_chats.cpp:144-149 | when the labels come from a connectivity labelling, the lists are the connected components: none is empty, each vertex is listed, and two vertices share a list iff one reaches the other |
| Chats.Chats | M_chats.cpp:134-155 | for every iteration order `lists` of the undirected input graph's `unordered_set` lists, the printed count is the number of lists, the lists are non-empty, ascending and cover the n users, and two users share a chat iff they are connected |
| PiggyBank.KeyGraphEdges | L_piggy_bank.cpp:137-142 | the store built by `main`'s loop has an edge from bank v to bank u iff the key of u lies in v (`from - 1` is the 0-based bank) |
| PiggyBank.JoinedIffCondReaches | L_piggy_bank.cpp:112-118 | two vertices are joined by an undirected walk of g iff their components are connected in the undirected condensation |
| PiggyBank.CondSymmetric | L_piggy_bank.cpp:112 | the condensation `build_undirected_condensation` returns is undirected: its edge lists are symmetric |
| PiggyBank.TwiceCondensed | L_piggy_bank.cpp:144-145 | condensing the undirected condensation again numbers the weakly connected components of g: two vertices get the same composed label iff they are joined, and every label is used |
| PiggyBank.WeakCountUnique | L_piggy_bank.cpp:146 | two numberings of the weakly connected components use the same number of labels, so the printed size is determined by the graph |
| PiggyBank.PiggyBank | L_piggy_bank.cpp:130-147 | the printed size `cc.size()` is the number of weakly connected components of the key graph, i.e. the number of banks that must be broken |
| LowLink.Min | T_hypertunnels.cpp:110 | `std::min`: at most both arguments and equal to one of them |
| LowLink.EnterClock | T_hypertunnels.cpp:104-105 | entering an unvisited v at `++timer` keeps the clock invariant: `timer` vertices are visited, with distinct entry times in 1 .. timer, `time_up <= time_in`, and a tree edge from each non-root's parent |
| LowLink.Enter | T_hypertunnels.cpp:104-105 | right after entering v, `time_up[v] = time_in[v]` is the minimum over no entries yet, v has no children, and every vertex visited before keeps its vectors |
| LowLink.SkipParent | T_hypertunnels.cpp:107-108 | skipping the entry that equals the parent keeps `time_up[v]` the minimum over the entries scanned |
| LowLink.VisitedStep | T_hypertunnels.cpp:109-110 | an already visited entry u lowers `time_up[v]` to `min(time_up[v], time_in[u])`, which keeps it the minimum over the entries scanned |
| LowLink.ChildStep | T_hypertunnels.cpp:111-113 | after the search from an unvisited entry u, which finishes every vertex it visits and leaves v's vectors alone, `time_up[v] = min(time_up[v], time_up[u])` keeps the scan invariant |
| LowLink.LowKept | T_hypertunnels.cpp:112 | a vertex finished before a search entered from another vertex is still finished after it: its neighbours' `time_in` and its children's `time_up` do not change |
| LowLink.ScanEnd | T_hypertunnels.cpp:106-115 | after the whole list, v is finished: `time_up[v]` is the minimum of `time_in[v]`, `time_in` of every neighbour other than the parent, and `time_up` of every child |
| LowLink.TimeUps | T_hypertunnels.cpp:95-116 | `calc_time_ups_dfs_` keeps the clock, enters v at `timer + 1` with the given parent, changes nothing of the vertices visited before, leaves every vertex it visits finished, and builds the tree `TreeFrom` grows from v |
| LowLink.TreeFrom | T_hypertunnels.cpp:104-115 | the search tree a depth-first search grows from an unseen v entered from p: it keeps every vertex already seen with its parent, and marks v seen with parent p |
| LowLink.TreeRoots | T_hypertunnels.cpp:154-157 | the outer loop from vertex v on: a tree grown from each vertex still unseen, in increasing order, keeping every vertex already seen |
| LowLink.TimeUpStep | T_hypertunnels.cpp:107-113 | one entry of the loop keeps the scan invariant and moves the pending tree one entry on, so the tree built so far still grows into the one `TreeFrom` gives |
| LowLink.RootsStep | T_hypertunnels.cpp:154-157 | a search from the next unvisited root keeps the fact that no visited vertex listed by a smaller one is a root: the root itself is listed by no smaller vertex, and every other vertex it enters gets a parent |
| LowLink.NotListedBelow | T_hypertunnels.cpp:154-157 | a vertex still unvisited when the loop reaches it is listed by no smaller vertex, since the searches from those would have reached it |
| LowLink.SearchRoot | T_hypertunnels.cpp:155-156 | one round of the first loop keeps its invariant: vertices below v + 1 visited and finished, and the parents those of the forest `SearchForest` builds |
| LowLink.RootDone | T_hypertunnels.cpp:154-157 | a search from the next unvisited root keeps the outer loop's invariant: every vertex below it is visited and every visited vertex is finished |
| LowLink.AllVisited | T_hypertunnels.cpp:154-157 | after the outer loop every vertex is visited exactly once, so the timer equals n, and all are finished |
| LowLink.FindTimeUps | T_hypertunnels.cpp:148-157 | the first loop of `highlight_all_dcc`: every vertex visited, entry times distinct in 1 .. n, every `time_up` the low-link minimum, the parents those of the depth-first forest `SearchForest`, and a vertex listed by a smaller one is never a root |
| CutPoints.SetInsert | R_cut_points.cpp:76 | `std::set::insert` on the ascending element list: the result is ascending and holds exactly the old elements and x |
| CutPoints.CutLowered | R_cut_points.cpp:71-74 | lowering `time_up[v]` does not change the cut test of any vertex other than v and v's parent |
| CutPoints.ChildCount | R_cut_points.cpp:78 | a search entered from v gives v exactly one more child, which is what `++n_children` counts |
| CutPoints.HighChildStep | R_cut_points.cpp:75-77 | after a child u, v has a child with `time_up >= time_in[v]` iff it had one or `time_up[u] >= time_in[v]` |
| CutPoints.CutsEnd | R_cut_points.cpp:81-82 | after the scan, a root v is added iff it has more than one child, so the set holds exactly the visited vertices that pass the cut test |
| CutPoints.CutDfs | R_cut_points.cpp:54-83 | `find_cut_points_dfs_` keeps the clock, enters v at `timer + 1` with the given parent, changes nothing of the vertices visited before, leaves every vertex it visits finished with its low-link `time_up`, builds the tree `TreeFrom` grows from v, and adds to the set exactly the vertices it visits that pass the cut test: a non-root with a child whose `time_up >= time_in`, or a root with more than one child |
| CutPoints.RootCut | R_cut_points.cpp:81-82 | after the loop, the set gains v exactly when v is a root with more than one child, stays ascending, and the search from v has then added exactly the vertices passing the cut test |
| CutPoints.CutStep | R_cut_points.cpp:68-79 | one pass of the loop over v's list keeps the scan invariant: the parent is skipped, a visited entry lowers `time_up[v]`, an unvisited one is searched from and counted as a child, and the tree grows by the next step of `TreeScan` |
| CutPoints.CutRoot | R_cut_points.cpp:95-96 | one round of the loop over the vertices keeps its invariant: vertices below v + 1 visited and finished, the parents those of the forest `SearchForest`, and the set those that pass the cut test |
| CutPoints.FindCutPoints | R_cut_points.cpp:87-100 | `find_cut_points` searches every vertex, its parents are those of the depth-first forest `SearchForest`, a vertex listed by a smaller one is never a root, and the returned set holds exactly the vertices that pass the cut test, ascending |
| CutPoints.CutPoints | R_cut_points.cpp:109-127 | `main`: for every iteration order `lists` of the undirected input graph's `unordered_set` lists, the printed vertices, 1-based and ascending, are exactly the vertices that pass the cut test of the depth-first forest `SearchForest(lists)` |
| Maglev.MaglevStart | U_maglev.cpp:121 | the store as constructed, with one empty list per skyscraper, is the store after no cushions |
| Maglev.CushionAddedList | U_maglev.cpp:125-127 | reading a cushion appends one vertex whose list holds its three skyscrapers (0-based) in reading order |
| Maglev.CushionAddedMember | U_maglev.cpp:125-127 | after a cushion, an old vertex's list gains the new cushion vertex iff the cushion rests on it |
| Maglev.CushionAddedKeeps | U_maglev.cpp:125-127 | the list of a skyscraper the cushion does not rest on is unchanged |
| Maglev.MaglevStep | U_maglev.cpp:122-128 | each pass of the input loop keeps the store's shape: cushion vertex n + j lists the skyscrapers of cushion j, and skyscraper x lists exactly the cushions resting on it |
| Maglev.MaglevGraph | U_maglev.cpp:121-128 | that store is a valid undirected graph: every cushion edge is stored at both ends |
| Maglev.JoinCushion | U_maglev.cpp:40-44 | `add_edge(s - 1, cushion)` on the undirected vector store pushes each end onto the other's list |
| Maglev.AddCushion | U_maglev.cpp:46-49 | `add_vertex` and the three `add_edge` calls leave the lists given by appending the cushion (also U_maglev.cpp:125-127) |
| Maglev.BuildMaglev | U_maglev.cpp:118-128 | the loop of `main` builds the store of all cushions, a valid symmetric graph |
| Maglev.ImportantCushions | U_maglev.cpp:131-136 | the cushions reported are exactly the cut points with an id of at least n, each as id − n + 1, ascending |
| Maglev.Maglev | U_maglev.cpp:114-140 | `main`: the printed cushions are exactly the 1-based cushions whose vertex passes the cut test of the depth-first forest `SearchForest` of the skyscraper–cushion graph, ascending |
| Bridges.BridgeLowered | S_bridges.cpp:114 | lowering `time_up[v]` does not change whether the tree edge into any other vertex is reported (also S_bridges.cpp:117) |
| Bridges.BridgeKept | S_bridges.cpp:116 | a search entered from another vertex does not change whether the tree edge into an already visited vertex is reported |
| Bridges.BridgeSkip | S_bridges.cpp:111-112 | every copy of the parent in v's multiset is skipped, keeping the scan invariant |
| Bridges.BridgeVisited | S_bridges.cpp:113-114 | a visited entry lowers `time_up[v]` to its `time_in` and reports nothing |
| Bridges.BridgeChild | S_bridges.cpp:115-120 | after the search from an unvisited u, the code of (v, u) is pushed iff `time_up[u] > time_in[v]` and v's multiset holds u only once |
| Bridges.BridgeEnd | S_bridges.cpp:110-122 | after the scan, v is finished and the vector holds, once each, the codes of the reported tree edges into the vertices visited since v was entered |
| Bridges.BridgeDfs | S_bridges.cpp:98-123 | `find_bridges_dfs_` keeps the clock, enters v at `timer + 1` with the given parent, changes nothing of the vertices visited before, leaves every vertex it visits finished with its low-link `time_up`, builds the tree `TreeFrom` grows from v, and appends one code per tree edge below v that it reports |
| Bridges.BridgeStep | S_bridges.cpp:111-121 | one pass of the loop over v's list keeps the scan invariant: the parent is skipped, a visited entry lowers `time_up[v]`, an unvisited one is searched from and its edge reported when `time_up[u] > time_in[v]` and it is not multiple, and the tree grows by the next step of `TreeScan` |
| Bridges.BridgeRoot | S_bridges.cpp:135-136 | one round of the loop over the vertices keeps its invariant: vertices below v + 1 visited and finished, the parents those of the forest `SearchForest`, and the codes those of the reported edges |
| Bridges.FindBridges | S_bridges.cpp:127-140 | `find_bridges`: every vertex is searched, the parents are those of the depth-first forest `SearchForest`, and the vector holds the code of the tree edge into x, once, iff that edge is reported (`time_up[x] > time_in[parent]` and not a multiple edge) |
| Bridges.LineOfFirst | S_bridges.cpp:164 | `emplace` keeps the first line: the stored number is that of the first input line naming the edge in either orientation, and nothing is stored when no line names it |
| Bridges.EdgeCodes | S_bridges.cpp:158-165 | after the input loop, `edges_codes` holds the code of a–b iff some line names that edge, mapped to the first such line |
| Bridges.InsertSorted | S_bridges.cpp:171 | insertion into a sorted list keeps it sorted and adds exactly x to its multiset |
| Bridges.Sort | S_bridges.cpp:171 | `std::sort`: the result is non-decreasing and a permutation of its input |
| Bridges.Renumber | S_bridges.cpp:169-170 | `edges_codes[bridge]` replaces each code by its stored line number, and by 0 for a code never stored, as `operator[]` does |
| Bridges.TreeEdgeLine | S_bridges.cpp:164 | every tree edge of the search appears on some input line, so its renumbered value is a line number in 1 .. m, never the 0 of a missing key (also S_bridges.cpp:170) |
| Bridges.RenumberedLines | S_bridges.cpp:169-170 | renumbering the codes of the reported edges gives, in the same order, the first input line of each |
| Bridges.Bridges | S_bridges.cpp:149-174 | `main`: for every iteration order `lists` of the input multigraph's `unordered_multiset` lists, over the depth-first forest `SearchForest(lists)`, the count printed is the number of reported tree edges, and the numbers printed are sorted and are, as a multiset, the first input line of each reported edge |
| Hypertunnels.ForestEnter | T_hypertunnels.cpp:127-136 | labelling v from p keeps the labelling forest: each labelled vertex was labelled after the parent it was reached from, which lists it |
| Hypertunnels.InheritedEnter | T_hypertunnels.cpp:127-136 | labelling v keeps every id in range, and a vertex that starts no cluster carries its parent's id (line 134) |
| Hypertunnels.FirstsEnter | T_hypertunnels.cpp:130-132 | a vertex that starts a cluster gets the fresh id `++max_dcc_id`, so it is the first of its id to be labelled and the only head carrying it |
| Hypertunnels.CoveredEnter | T_hypertunnels.cpp:130-132 | every id handed out so far is carried by a head |
| Hypertunnels.LabelEnter | T_hypertunnels.cpp:127 | `dcc_ids[v] = dcc_id` keeps the whole labelling invariant, with one more id when v is a head |
| Hypertunnels.HighlightDfs | T_hypertunnels.cpp:118-138 | `highlight_dcc_dfs_` labels v with its id, never lowers `max_dcc_id`, keeps the labels already given, and leaves a labelling in which each cluster is one head and the vertices reached from it without crossing another head; the vertices it labels and their parents form the same tree `TreeFrom` gives for the low-link search |
| Hypertunnels.HighlightStep | T_hypertunnels.cpp:129-135 | one entry of the loop: an unlabelled u is searched with a fresh id when `time_up[u] > time_in[v]`, and with v's id otherwise; the pending tree moves one entry on |
| Hypertunnels.LabelClusters | T_hypertunnels.cpp:159-168 | the second loop of `highlight_all_dcc` labels every vertex with an id in `0 .. max_id - 1`, every id used by a head; a root takes `max_id` and the loop's `++max_id` moves past the ids given inside; the parent each vertex is labelled from is its parent in `SearchForest`, the same as in the low-link search |
| Hypertunnels.LabelRoot | T_hypertunnels.cpp:162-164 | one round of the second loop keeps the labelling invariant, labels v, and keeps the labelling tree on course to `SearchForest` |
| Hypertunnels.HighlightAll | T_hypertunnels.cpp:148-169 | `highlight_all_dcc`: the low-link search of every vertex, with the parents of the depth-first forest `SearchForest`, then the labelling built on its `time_up` / `time_in` over that same forest, with every id in `0 .. n_clusters - 1` |
| Hypertunnels.HeadSeparated | T_hypertunnels.cpp:130-132 | a vertex that starts a cluster gets an id different from that of the parent it was reached from |
| Hypertunnels.FixedCutsBridges | T_hypertunnels.cpp:130 | with the corrected test, a non-root vertex shares its search parent's cluster iff the tree edge between them is no bridge in the sense of S_bridges.cpp:118 |
| Hypertunnels.AsWrittenSplitsLeaf | T_hypertunnels.cpp:130 | as written, a non-root vertex whose every entry is its search parent gets a cluster of its own, however many times the edge to the parent was read |
| Hypertunnels.AsWrittenSplitsDoubled | T_hypertunnels.cpp:130 | on the lines 1–2, 1–3, 1–4, 2–5, 2–5, in every iteration order of the lists, vertex 5 gets a cluster apart from vertex 2 although the edge 2–5 is multiple and no bridge (also T_hypertunnels.cpp:204-210) |
| Hypertunnels.DoubledParent | T_hypertunnels.cpp:155-156 | on those lines, in every iteration order, the search enters vertex 5 from vertex 2, its only neighbour |
| Hypertunnels.OnlyNeighbourParent | T_hypertunnels.cpp:104-113 | a vertex listed by a smaller one whose own list holds only that one is entered from it |
| Hypertunnels.DoubledStore | T_hypertunnels.cpp:84-86 | the store read from those lines lists 5 twice in 2's multiset, and 5's list holds only 2 (also T_hypertunnels.cpp:206-210) |
| Hypertunnels.ExitsCounted | T_hypertunnels.cpp:177-180 | the inner loop counts the entries of v's list that lie in another cluster |
| Hypertunnels.ScanExits | T_hypertunnels.cpp:177-180 | the inner loop adds to `n_neighbors[ids[v]]` the number of v's entries leaving its cluster and changes no other counter |
| Hypertunnels.CountOnes | T_hypertunnels.cpp:183-186 | the final loop counts the clusters whose counter is exactly 1 |
| Hypertunnels.CountLeaves | T_hypertunnels.cpp:171-188 | `count_leaves_in_cluster_tree` is the number of clusters with exactly one entry leading out of them (the `visited` vector is never set, so every vertex is scanned) |
| Hypertunnels.Hypertunnels | T_hypertunnels.cpp:197-214 | `main`: for every iteration order `lists` of the input multigraph's `unordered_multiset` lists, the printed value is (leaves + 1) / 2 for the clusters labelled over the depth-first forest `SearchForest(lists)`, both passes following that forest; `fixed` selects the corrected test |
| BusPath.FirstVisible | W_bus_path.cpp:159-164 | the first square not marked isolated: it is not isolated and every square before it is |
| BusPath.SkipIsolated | W_bus_path.cpp:159-164 | `skip_isolated_` stops at the first square not isolated, or at `max_v` if that comes first |
| BusPath.PushUnvisited | W_bus_path.cpp:180-184 | the loop over `neighbors_by_reference(v)` appends to the queue exactly the neighbours of v not yet visited, keeping what was queued |
| BusPath.SearchStep | W_bus_path.cpp:178-185 | one pass of the queue loop keeps the search state: marking the front and queueing its unvisited neighbours keeps every marked or queued vertex reachable from s, and every neighbour of a marked vertex marked or queued |
| BusPath.SearchFrom | W_bus_path.cpp:172-186 | the queue search from s, which marks a vertex when it reaches the front, ends with exactly the vertices reachable from s visited |
| BusPath.ClosedReaches | W_bus_path.cpp:177-186 | a set of vertices closed under the neighbour lists contains everything reachable from its members, which is why the search finds no more |
| BusPath.IsConnectedWithoutIsolated | W_bus_path.cpp:168-193 | true iff the store has an edge and every non-isolated square is reachable from the first non-isolated one |
| BusPath.VisibleReached | W_bus_path.cpp:172-192 | the search from s and the loop after it: true iff every square not marked isolated is reachable from s |
| BusPath.Degrees | W_bus_path.cpp:201-208 | after the degree loop, `deg_out[v]` is the number of edges leaving v and `deg_in[u]` the number of edges entering u |
| BusPath.CountHeads | W_bus_path.cpp:205-207 | the inner loop adds one to `deg_in` of the head of each id in v's list |
| BusPath.PushCursors | W_bus_path.cpp:220 | `outgoing_edges(v)[degree(v) - deg_out[v]]` is the first edge of v not yet followed, and `--deg_out[v]` marks it followed (also W_bus_path.cpp:223) |
| BusPath.PushInDegrees | W_bus_path.cpp:222 | `--deg_in` keeps each counter equal to the edges into that vertex not yet followed |
| BusPath.PushLinked | W_bus_path.cpp:220-223 | pushing the head of the edge followed keeps the stack a trail of distinct edges from the start |
| BusPath.PopLinked | W_bus_path.cpp:215-217 | popping a vertex with no edge left appends it to the path and the edge it was entered by to the path's links |
| BusPath.PopJunction | W_bus_path.cpp:215-217 | when the degrees allow an Euler path ending at t, a vertex popped has no edge left in or out and is the walk's current sink: t before the first pop, afterwards the stacked vertex at which the current trail closed |
| BusPath.Popped | W_bus_path.cpp:215-218 | a pop keeps the walk invariant of the stack loop |
| BusPath.Pushed | W_bus_path.cpp:219-224 | a push keeps the walk invariant of the stack loop |
| BusPath.PopStep | W_bus_path.cpp:215-218 | the pop branch of the stack loop: the top, which has no edge left, leaves the stack for the end of the path, and the walk invariant holds after |
| BusPath.PushStep | W_bus_path.cpp:219-224 | the push branch of the stack loop: the next edge of the top is followed, its head stacked, both counters lowered, the walk invariant kept, and the edges not yet followed fewer |
| BusPath.WalkingTop | W_bus_path.cpp:214-220 | under the walk invariant, the top of the stack, its `deg_out` cursor and the edge `outgoing_edges(v)[degree(v) - deg_out[v]]` with its end are all in range, so the loop body indexes safely |
| BusPath.StartWalk | W_bus_path.cpp:201-211 | before the stack loop: with the counters equal to the degrees and the start square stacked, nothing followed, the walk invariant holds |
| BusPath.ExploredClosed | W_bus_path.cpp:213-225 | when the stack is empty, the squares seen are closed under the neighbour lists |
| BusPath.EulerEnd | W_bus_path.cpp:213-225 | when the stack loop stops and every edge leaves a square connected to the start, the ids followed are exactly all the edges |
| BusPath.AllFollowed | W_bus_path.cpp:213-225 | when every edge leaves a non-isolated square and these are connected, the loop has followed every edge |
| BusPath.ReversedEntered | W_bus_path.cpp:226 | the reversed path starts at s and enters each vertex after the first by a distinct edge |
| BusPath.ReversedLeaves | W_bus_path.cpp:226 | with the degree check, the reversed path ends at t and leaves each vertex by the edge that enters the next |
| BusPath.FinishWalk | W_bus_path.cpp:213-226 | after the stack loop and `std::reverse`: the path starts at s, each square after the first is entered by its own edge, no edge twice, it has one square more than there are edges when every tail is visible, and with the degree check it ends at t and leaves each square by the edge that enters the next |
| BusPath.Reversed | W_bus_path.cpp:226 | `std::reverse`: element i of the result is element n − 1 − i of the input |
| BusPath.FindEnds | W_bus_path.cpp:201-208 | the added degree check: it finds s with one more edge out than in and t with one more in than out, the rest balanced, or reports every vertex balanced; it fails exactly when no pair of ends fits the counters |
| BusPath.EndsUnique | W_bus_path.cpp:201-208 | the counters fix the ends: two pairs that fit them are both circuits, or the same start and end |
| BusPath.DegreeCounts | W_bus_path.cpp:201-208 | the counters the degree loop leaves are the out-degrees over the tails and the in-degrees over the heads |
| BusPath.WalkAndReverse | W_bus_path.cpp:210-227 | the stack loop from s terminates (each push follows a new edge) and its pops, reversed, are a path that starts at s, enters each square after the first by a distinct edge, has n_edges + 1 squares when every edge starts at a visible square, and, when the degrees allow an Euler path from s to t, ends at t and leaves each square by the edge that enters the next |
| BusPath.FindFullEulerPathIfExists | W_bus_path.cpp:195-228 | as written: empty iff the connectivity check fails, else the walk from the first non-isolated square; corrected: empty iff there is no edge or no pair of ends the degrees allow whose start reaches every non-isolated square, else a walk between such ends that leaves and enters each square by one edge each |
| BusPath.CheckedWalk | W_bus_path.cpp:195-208 | the corrected routine: empty iff there is no edge, or no Euler circuit or Euler path the degrees allow starts at a vertex reaching every non-isolated vertex; otherwise the walk between the ends the degrees fix |
| BusPath.Hops | W_bus_path.cpp:253-259 | a route of k squares makes the k − 1 hops between consecutive squares, in order |
| BusPath.ReadRoute | W_bus_path.cpp:248-259 | reading one route appends its hops to the store and clears the `isolated` mark of exactly its squares |
| BusPath.ReadStep | W_bus_path.cpp:254-258 | one pass of the loop over a route's squares keeps the reading invariant: the hop from `prev` to the next square is added and that square is no longer marked isolated |
| BusPath.AddHop | W_bus_path.cpp:255-258 | one hop: `isolated[next - 1] = false` and `add_edge(prev - 1, next - 1)` |
| BusPath.HopDegrees | W_bus_path.cpp:201-208 | the store built from the hops counts, for each square, the hops that leave it and the hops that enter it |
| BusPath.PrintedPath | W_bus_path.cpp:262-267 | the squares printed (1-based) are empty iff the check fails; as written they start at the first square on a route and enter every hop once; with the degree check they ride every hop once from the start the degrees fix to the end they fix |
| BusPath.PrintedChecked | W_bus_path.cpp:262-267 | with the degree check, the routine's answer on the store, shifted to 1-based squares, is empty iff no ends the hops allow have a start reaching every route square, and otherwise rides every hop once between such ends |
| BusPath.EulerSquaresEnds | W_bus_path.cpp:201-208 | the degree check on the store at vertices s and t is the degree check on the hops at squares s + 1 and t + 1 |
| BusPath.RiddenSquares | W_bus_path.cpp:264-266 | a walk along the store's edges that enters every edge, printed 1-based, rides every hop once in order |
| BusPath.BusPath | W_bus_path.cpp:237-268 | `main`: from the routes, the count printed is the number of squares printed, which are as PrintedPath states, over the hops of all routes and the squares no route mentions |
| BusPath.ForkPrinted | W_bus_path.cpp:198 | on the routes 1 → 2 and 1 → 3, every square is reachable from square 1, so the program as written prints a non-empty sequence of squares (also W_bus_path.cpp:201-208) |
| BusPath.ForkNotRidden | W_bus_path.cpp:210-227 | no sequence of squares rides both hops of that input once, in order, circuit or not |
| BusPath.ForkNoEnds | W_bus_path.cpp:201-208 | the corrected degree check rejects that input: square 1 has two hops out and none in, so no pair of ends fits |
| BusPath.LineAccepted | W_bus_path.cpp:201-208 | the corrected check accepts the route 1 → 2 → 3: its degrees allow the Euler path from square 1 to square 3, and square 1 reaches every square |
| BusPath.LineDegrees | W_bus_path.cpp:201-208 | on the hops of that route, square 1 has one more hop out than in, square 3 one more in than out, square 2 one of each |
| EdgeGraph.IdsAdded | W_bus_path.cpp:76-83 | the id lists after `add_edge`: only the lists of `from` (and of `to`, when undirected) change |
| EdgeGraph.StoredPushed | W_bus_path.cpp:77-78 | handing the next id to a half-edge from → to keeps the store's shape: each id in exactly the list of its tail, the lists ascending, and each cached set the heads of its vertex's edges |
| EdgeGraph.FastNeighborsGraph.Heads | W_bus_path.cpp:95-101 | the store read as adjacency lists: v's list holds the heads of v's ids in id order, all vertices when heads are in range |
| EdgeGraph.FastNeighborsGraph.constructor | W_bus_path.cpp:126-127 | n vertices, no edges, empty id lists and empty cached sets |
| EdgeGraph.FastNeighborsGraph.AddEdge | W_bus_path.cpp:76-83 | `add_edge` hands out id `n_edges` (and the next one for the reverse half-edge when undirected), pushes each id on its tail's list, records its head, and adds the heads to the cached sets (also W_bus_path.cpp:129-134) |
| EdgeGraph.FastNeighborsGraph.AddHalfEdge | W_bus_path.cpp:77-78 | one half-edge: the next id goes on from's list with head to, and to joins from's cached set (also W_bus_path.cpp:131) |
| EdgeGraph.FastNeighborsGraph.AddVertex | W_bus_path.cpp:85-89 | `add_vertex` returns the old vertex count and appends an empty id list and an empty cached set (also W_bus_path.cpp:136-140) |
| EdgeGraph.FastNeighborsGraph.Degree | W_bus_path.cpp:91-93 | `degree(v)` is the number of edges whose tail is v |
| EdgeGraph.FastNeighborsGraph.OutgoingEdges | W_bus_path.cpp:103-109 | `outgoing_edges(v)` lists, ascending, exactly the ids of the edges leaving v |
| EdgeGraph.FastNeighborsGraph.EdgeEnd | W_bus_path.cpp:111-113 | `edge_end(e)` is a vertex in the cached neighbour set of e's tail |
| EdgeGraph.FastNeighborsGraph.Neighbors | W_bus_path.cpp:142-148 | the cached set of v is exactly the set of heads of v's edges |
| EdgeGraph.FastNeighborsGraph.EdgeNeighbors | W_bus_path.cpp:95-101 | the base class's loop over v's ids collects exactly the heads of v's edges, the same set as the cache |
| EdgeGraph.EndsOfPushed | W_bus_path.cpp:97-99 | adding an id to the loop adds its head to the collected set |
| EdgeGraph.AscendingCard | W_bus_path.cpp:91-93 | an ascending list has as many elements as the set it enumerates |
| GraphDecoding.Abs | Q_graph_decoding.cpp:214 | `std::abs`: non-negative and equal to a or −a |
| GraphDecoding.Across | Q_graph_decoding.cpp:208 | the dependency across an edge of code c has the opposite sign, and its value is c minus the tail's value for every x |
| GraphDecoding.EncodedGraph.constructor | Q_graph_decoding.cpp:154-155 | n vertices, no edges, no codes |
| GraphDecoding.EncodedGraph.AddEncodedEdge | Q_graph_decoding.cpp:157-162 | `add_encoded_edge` adds the edge to the id store and pushes its code once per half-edge, so the i-th code belongs to the i-th id |
| GraphDecoding.FollowsSnoc | Q_graph_decoding.cpp:65-72 | one more call appends its one or two half-edges, with tail, head and code taken from the call (reversed for the second half) (also Q_graph_decoding.cpp:157-162) |
| GraphDecoding.StoreFits | Q_graph_decoding.cpp:159-161 | with one code per id, every listed id has a head that is a vertex and a code |
| GraphDecoding.DfsSound | Q_graph_decoding.cpp:196-218 | when some assignment of values solves the codes, every vertex the search marks gets a dependency giving its value from x, the value of `init`, and an answer other than -1 is x |
| GraphDecoding.ScanSound | Q_graph_decoding.cpp:205-216 | the same for the loop over v's edges from any position |
| GraphDecoding.StepSound | Q_graph_decoding.cpp:206-215 | the same for one edge: a new vertex gets the dependency across the edge, and a sign conflict at a marked vertex yields `|offset difference| / 2`, which is x |
| GraphDecoding.DfsCloses | Q_graph_decoding.cpp:196-218 | every vertex the search marks has all its heads marked and, with the corrected answer handling and no answer, every non-loop edge out of it joins dependencies of opposite signs |
| GraphDecoding.MarkedReach | Q_graph_decoding.cpp:196-218 | when every marked vertex has its heads marked, whatever a marked vertex reaches is marked: the search marks the whole connected graph |
| GraphDecoding.Found | Q_graph_decoding.cpp:220-228 | `find_dependencies_or_answer_` on a decodable connected graph: every vertex gets the dependency giving its hidden value from `init`'s, and an answer other than -1 is `init`'s hidden value |
| GraphDecoding.EncodedGraph.FindDependenciesOrAnswerDfs | Q_graph_decoding.cpp:196-218 | the recursive method leaves `visited`, `deps` and its result as the functional search states |
| GraphDecoding.EncodedGraph.ScanEdge | Q_graph_decoding.cpp:206-215 | the loop body leaves the arrays and the answer as one step of the functional search |
| GraphDecoding.EncodedGraph.FindDependenciesOrAnswer | Q_graph_decoding.cpp:220-228 | marks only `init`, gives it the dependency (false, 0), and returns the answer of the search from it |
| GraphDecoding.EncodedGraph.CanApply | Q_graph_decoding.cpp:230-249 | `can_apply_` is true iff the values the dependencies give for `value` form a permutation of 0 .. n−1; it then writes them all to `answer`, and otherwise it has written those of the vertices before the one where it stopped |
| GraphDecoding.UsedNext | Q_graph_decoding.cpp:242-245 | a new value in range keeps `used` marking exactly the values written so far |
| GraphDecoding.UsedAgain | Q_graph_decoding.cpp:242-243 | a value already used means the expected values repeat, so they are no permutation |
| GraphDecoding.UnusedAll | Q_graph_decoding.cpp:247-248 | distinct values in range for every vertex form a permutation |
| GraphDecoding.Pigeonhole | Q_graph_decoding.cpp:236-248 | n distinct values in 0 .. n−1 are a permutation |
| GraphDecoding.EncodedGraph.Maximals | Q_graph_decoding.cpp:176-181 | `maximals[s]` is the largest offset among the dependencies of sign s, `INT64_MIN` when there is none |
| GraphDecoding.Candidates | Q_graph_decoding.cpp:183-188 | on a decodable graph the first guess `n − 1 − maximals[0]` is in range, and when it does not apply the second guess, `maximals[1] − (n − 1)`, is `init`'s hidden value |
| GraphDecoding.CrossedSolves | Q_graph_decoding.cpp:183-188 | when every non-loop edge joins dependencies of opposite signs, any guess gives values that satisfy every code |
| GraphDecoding.FoundAnswer | Q_graph_decoding.cpp:171-174 | after a search that found an answer, it is `init`'s hidden value and `can_apply_` writes the hidden permutation |
| GraphDecoding.FoundGuesses | Q_graph_decoding.cpp:176-188 | after a search without an answer, one of the two guesses applies, and with the corrected search its values satisfy every code |
| GraphDecoding.EncodedGraph.ApplyGuesses | Q_graph_decoding.cpp:183-188 | the guess loop stops at the first guess that applies, and `answer` holds that guess's values |
| GraphDecoding.EncodedGraph.Fallback | Q_graph_decoding.cpp:176-190 | the branch without an answer returns a permutation, which satisfies every code with the corrected search |
| GraphDecoding.EncodedGraph.GetDecodePermutation | Q_graph_decoding.cpp:164-191 | on a decodable connected graph `get_decode_permutation` returns a permutation of 0 .. n−1; with the corrected search it satisfies every code other than self-loops |
| DecodingLost.LostGraph | Q_graph_decoding.cpp:262-267 | the store built from the lines 1 2 5, 2 3 3, 3 1 4, 1 4 7 has the ids, heads and codes given, is solved by the hidden values 2, 1, 0, 3 and is connected |
| DecodingLost.LostSearch | Q_graph_decoding.cpp:209-215 | the search from 0 finds the answer 2 in the triangle, and as written the pendant vertex 3's search returns -1 over it |
| DecodingLost.LostOutput | Q_graph_decoding.cpp:211 | as written the search ends without an answer, the first guess 3 applies, and the permutation 3, 0, 1, 2 it writes breaks the codes and differs from the hidden one (also Q_graph_decoding.cpp:183-188) |
| DecodingLost.LostKept | Q_graph_decoding.cpp:211 | with the answer kept, the search ends with the answer 2, whose values are the hidden permutation |
| GraphDecoding.ScanCloses | Q_graph_decoding.cpp:205-216 | the closure of the search for the loop over v's edges: heads of marked vertices are marked, and with the answer kept and none found the scanned edges join opposite signs |
| GraphDecoding.StepCloses | Q_graph_decoding.cpp:206-215 | the same for one edge |
| DecodingLost.LostSolved | Q_graph_decoding.cpp:262-267 | the hidden values 2, 1, 0, 3 are a permutation and satisfy the code of every edge of the example |
| DecodingLost.LostConnected | Q_graph_decoding.cpp:196-218 | every vertex of the example is reachable from vertex 0 |

## Findings

| source | as written | input that shows it | evidently intended | confidence | as-written member | corrected member |
|---|---|---|---|---|---|---|
| K_find_cycle.cpp:71 | a child that finds a cycle returns early at line 67 and leaves the vertex it returned from grey, yet the caller stores the answer in `ans` and goes on scanning its list; a later edge into that grey vertex is taken for a new cycle and overwrites `cycle_start` and `prev`, so the walk back through `prev` from `cycle_start` reaches -1 and reads `prev[-1]` | 4 vertices, edges 1→2, 1→4, 2→3, 3→2, 4→3 (0-based 0→1, 0→3, 1→2, 2→1, 3→2), with either order of vertex 1's list | stop at the first cycle found and print it | not executed | FindCycle.AsWrittenReadsOutside | FindCycle.FindCycle |
| T_hypertunnels.cpp:130 | a vertex starts a new cluster whenever `time_up[u] > time_in[v]`, with no test for a multiple edge, so a tree edge that was read twice counts as a bridge | lines 1–2, 1–3, 1–4, 2–5, 2–5: vertex 5 gets a cluster apart from vertex 2 | the bridge test of S_bridges.cpp:118, which excludes multiple edges | not executed | Hypertunnels.AsWrittenSplitsDoubled | Hypertunnels.FixedCutsBridges |
| W_bus_path.cpp:201-208 | the in- and out-degrees are counted but never compared (the sequence is built from line 222 on), so an input with no Euler path or circuit still passes, and a sequence of squares is printed (1 3 2 here, which does not ride both hops) | routes 1 → 2 and 1 → 3 | print nothing unless every square is balanced or exactly one has one more hop out than in and one one more in than out, and then start at the square with the extra hop out | not executed | BusPath.ForkPrinted | BusPath.ForkNoEnds |
| Q_graph_decoding.cpp:211 | `answer` is overwritten by every child's result, so a child's -1 erases an answer found earlier in the loop, and a guess that breaks the codes can then apply | n = 4, edges (1, 2, 5), (2, 3, 3), (3, 1, 4), (1, 4, 7), random start vertex 1: the program prints 4 1 2 3 instead of 3 2 1 4 | keep an answer once found | not executed | DecodingLost.LostOutput | DecodingLost.LostKept |

## Left out

- Reading the input and printing the output of every program are left out. Each `main` is modelled from the values it has read, which are parameters, up to the value it prints.
- Q_graph_decoding.cpp `main` is left out: reading n and m, the identity output for n < 3, subtracting 2 from each code and adding 1 to each printed value are input and output formatting around GraphDecoding.EncodedGraph.GetDecodePermutation.
- The random start vertex of Q_graph_decoding.cpp:167 is a parameter, `init`. Every property is proved for every start vertex.
- The width of `int32_t`, `int64_t` and `size_t` is not modelled. Integers are unbounded, and the values involved are bounded by the vertex and edge counts. `INT32_MAX` and `INT64_MIN` are kept as constants.
- Virtual dispatch on the `Graph` interfaces, the `NotImplementedError` paths and `dynamic_cast` are not modelled. Each algorithm takes the concrete store the program uses.
- Races.MinMoves, Gutters.Gutters, PiggyBank.PiggyBank: the `unordered_set` store is built in the order the input is read, and the properties are proved for that order only. Each states a number of moves or a count of components that the order does not change, but the proof does not cover other orders.
- The stores built inside the algorithms (the condensation and reversed stores of Condensation and Kosaraju, the `unordered_map` penalty store of TrafficRules, the `unordered_set` neighbour caches of GraphDecoding) are also kept in insertion order. What is stated of them (components, condensation edges, least penalties, decodings) names no order, but is proved for that order only.
- Stack depth of the recursive searches is not modelled.
- The bodies of the programs' loops are helper methods of their own. Each helper states the loop invariant at the next iteration.
- GraphDecoding.EncodedGraph.GetDecodePermutation: requires what the input promises: some permutation satisfies the codes, and the graph is connected. On other input a guess can fall outside 0 .. n − 1, and `can_apply_` indexes `used` with it unchecked (Q_graph_decoding.cpp:237).
- Multicolored.Multicolored: requires rows of the triangular shape the input format promises (`RowsShape`). The source adds one edge per character it reads, so a longer row writes outside the store.
- FourDigits.FindNumberPath: requires a start without a zero digit, as the input promises. From a start with a zero digit the search can reach a number in 9001 .. 9110, whose increment edge leads outside `dist` (FourDigits.IncrementLeavesStore).
- BusPath.SkipIsolated: requires some square that is not isolated. Without one the source reads past the end of `isolated`; its callers reach it only when the graph has an edge (`g.empty()` is false), and then the square an edge leaves is not isolated (BusPath.MarkedVisible).
- ChainGraph.MinPathLength: is stated as the least number of unit edges of a walk in the expanded graph, not as a weighted distance of the input graph.
- TrafficRules.MinPenalty: the -1 answer is stated as every walk costing at least `INT32_MAX`, not as the absence of a walk.
- Dijkstra.ShortestDistances: with a negative weight it promises only that each distance below `INT32_MAX` is the weight of some walk. Minimality is proved for non-negative weights, the only ones the programs build.
- GraphDecoding.EncodedGraph.GetDecodePermutation: as written (without the kept answer) it promises only a permutation, because the finding above shows that it can break the codes.
- GraphDecoding.SolvesApart: the code of a self-loop edge is ignored, as the source skips such edges at Q_graph_decoding.cpp:207.
- CutPoints.FindCutPoints: states the search's cut test (root with two tree children, or a child whose `time_up` is at least the vertex's `time_in`), not the articulation property in terms of walks. The same holds for CutPoints.CutPoints and Maglev.Maglev. The search itself is the program's: its parents are those of the depth-first forest `SearchForest`.
- Bridges.FindBridges: states the search's bridge test (`time_up[u] > time_in[v]` and no multiple edge), not bridge-ness in terms of walks. The same holds for Bridges.Bridges. The search itself is the program's: its parents are those of the depth-first forest `SearchForest`.
- Hypertunnels.LabelClusters: the labelling is stated as the search tree cut at the vertices where the test of T_hypertunnels.cpp:130 holds, not as 2-edge-connected components in terms of walks.
- GraphStore.Inserted: the `std::set` neighbour lists of B_check_bipart.cpp:11 and D_4_digits.cpp:11 are modelled in insertion order, not in `std::set`'s ascending order. Membership is the same; only the order a search visits the neighbours in differs, which for D_4_digits.cpp can change which of several shortest paths is printed, and B_check_bipart.cpp prints only yes or no.
- FindCycle.FindCycleAsWritten: states that an acyclic graph gives the empty answer and that a read outside the array is at -1; it does not state that a graph with a cycle always leaves `cycle_start` set.
- FindCycle.FindCycle: the corrected search starts only at unvisited vertices, so it leaves out the as-written restart at finished vertices. Such a restart finds every neighbour finished, returns false and leaves the colours as they were.
- WeightedStore.WeightedAdjListsGraph.AddEdge: the undirected case is modelled as written, adding a self-loop at `to`. No program builds an undirected weighted store, so this is not a finding.
