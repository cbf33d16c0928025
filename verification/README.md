# Verified models of five programs

Dafny models of the parts of this repository that carry an algorithm, with proofs of what each of them is for.

* **An LDPC coder** (`0ZS/BMS/Projekt`). Parity check matrices are 0/1 `array2<int>`, reduced in place row by row. `Gf2`,
  `RowOperations`, `NullSpace` and `Rank` are the algebra over two elements that the code is measured against; `Maths`,
  `MatricesGenerator`, `ParityCheck` and `Codec` are the program. Main results: the reduction is a reduced row echelon form
  with an invertible record; the coding matrix is a basis of the null space of H and its width is the number of free bits;
  decoding undoes encoding, and encoding undoes decoding on exactly the vectors that are accepted as codewords.
* **Maximum independent set solvers** (`0ZS/GAL/Projekt`). `Ramsey`: the Ramsey bound for every choice of pivots, and the
  clique cover as a certificate. `Greedy`: a maximal independent set within the Caro-Wei bound. `Bma`: the chain invariant of the
  relaxation, what its costs are, its end by the break, and a maximal independent set of exactly the announced size.
* **State-space search** (`0ZS/SUI/Projekt 1`). `AStar` (lazy deletion, reopening) and `BreadthFirst` return shortest
  solutions and fail only when there is none; `DepthFirst` (one shared list of actions, cut back when it jumps up) is sound,
  complete within its limit and returns what the recursive search returns. `StudentHeuristic` counts the fewest cuts that part the
  stacks into sequences, and meets what A* asks of a heuristic.
* **uTP reassembly and the BitTorrent framer** (`1LS/PDS/Projekt`). `SerialNumbers` (RFC 1982, sections 3.1 and 3.2),
  `UtpReassembly` (an object whose sequence numbers and pending list follow two unbounded streams), `BitTorrentFramer`
  (BEP 3 framing, chunk by chunk) and `TrafficMonitor`, the two composed: packets in any order yield the messages sent.
* **Octree mesh traversal** (`0ZS/AVS/Projekt 2`). `DistanceField` (the field, and why an empty block may be skipped),
  `GridSums` and `OctreeMesh` (the recursion against the flat triple loop, and for which grids they agree).

Each method that works in place is specified by a function of its old state or by the property it establishes; the properties
of those functions are lemmas beside it. To check the whole project, run `dafny verify dfyconfig.toml`.

Where code and expectation differ, the model follows the code:

* The list that `clique_removal` returns lacks the first clique and ends with an empty one; its length is right
  (`Ramsey.CliqueRemoval`).
* A generated parity check matrix can have a rank below half its length, when shuffles repeat or combine; then the coding matrix
  is wider than the input and encoding fails. `Codec.EncodeWithFreshMatrix` states exactly when, and that a drawing that moves
  nothing makes it fail for every input; `Codec.SomeDrawingEncodes` that for every input some drawing makes it succeed. The empty
  input always fails, because it asks for a matrix with a negative number of rows.
* `gaussElimination` runs over all rows of a matrix that is taller than wide and so reads cells beyond the last column. Cells of
  the next row are read as they lie in memory; what lies behind the last row is an arbitrary function (`Maths.Memory`), a fresh
  one for each search and each elimination because the right side may lie there and change, and no result depends on it.
* The serial number's greater-than is "not less", so it holds of equal numbers too, and two numbers exactly half the range apart
  are each greater than the other (`SerialNumbers.HalfRangeIsAmbiguous`). `UtpReassembly.RightExactlyWhenRecognised` says for
  every packet whether the flow survives it; the next ones at both ends of the window are `UtpReassembly.LostBeyondWindow` and
  `UtpReassembly.QueuedBeforeWindow`.
* That a heuristic never exceeds the remaining steps is not enough for A* to be optimal. Costs are whole numbers, so it is
  enough that the heuristic is above -1 at final states, and `AStar.NearestExactlyAboveMinusOne` says that no lower bound on it
  is.
* The Bellman-Ford style solver reads only out-edges in round 0. On a graph with an edge in one direction only it can return
  adjacent nodes (`Bma.OneWayEdgeMisleads`).
* The framer tests its wrong flag on entry only: the rest of the segment that held a wrong handshake is still parsed, later
  segments are dropped. `BitTorrentFramer.ChunkingInvariance` and `BitTorrentFramer.FeedAllIsFeed` say exactly when that matters,
  `BitTorrentFramer.CuttingMatters` gives a stream on which it does.
* The octree halves an odd edge by dropping its last layer. `OctreeMesh.TotalsAgree` says exactly what is lost on a given mesh,
  `OctreeMesh.AgreeOnAllMeshes` for which grid sizes nothing ever is.
* A depth limit below 1 acts like 1 (`DepthFirst.Solve`).

## Model

| member | source | states |
|---|---|---|
| `Maths.GaussJordan` | 0ZS/BMS/Projekt/maths.cpp:38-85 | changes nothing it is given and returns fresh 0/1 matrices: exactly the reduced matrix and the row record of the column by column reduction, for every 0/1 matrix with a row |
| `Maths.ReduceColumns` | 0ZS/BMS/Projekt/maths.cpp:45-82 | the in-place column loop, leaving by its break, ends in the full reduction of the matrix and of the record |
| `Maths.ReduceColumn` | 0ZS/BMS/Projekt/maths.cpp:46-77 | one column in place: pivot search, swap in both matrices and clearing amount to one reduction step, whether or not there is a pivot |
| `Maths.ClearColumn` | 0ZS/BMS/Projekt/maths.cpp:70-76 | every other row with a one in the pivot column, above or below, gets the pivot row added, in the matrix and in the record alike |
| `Maths.FindPivot` | 0ZS/BMS/Projekt/maths.cpp:47-53 | the first row from the start on with a one in the column, or a row without one if there is none |
| `Maths.SwapRowsInPlace` | 0ZS/BMS/Projekt/maths.cpp:59-66 | exchanges two rows and leaves all others |
| `Maths.AddRowInPlace` | 0ZS/BMS/Projekt/maths.cpp:72-74 | the absolute difference of two bit rows is their sum modulo 2 |
| `RowOperations.ReduceCorrect` | 0ZS/BMS/Projekt/maths.cpp:38-85 | the reduced matrix is P X modulo 2, P has an inverse, and the matrix is in reduced row echelon form with as many pivots as were counted |
| `RowOperations.ReduceToCorrect` | 0ZS/BMS/Projekt/maths.cpp:45-82 | the same after every number of columns: the invariant of the whole run |
| `RowOperations.ReduceStepCorrect` | 0ZS/BMS/Projekt/maths.cpp:46-77 | one column keeps A = P X with P invertible and extends the echelon form by one column |
| `RowOperations.ReduceToStops` | 0ZS/BMS/Projekt/maths.cpp:79-81 | once every row has its pivot the remaining columns change nothing, so the early break loses nothing |
| `RowOperations.TracksStep` | 0ZS/BMS/Projekt/maths.cpp:58-76 | multiplying by a matrix that is its own inverse keeps A = P X and the inverse of P |
| `RowOperations.ClearedReduced` | 0ZS/BMS/Projekt/maths.cpp:70-76 | clearing the column of a new pivot keeps the earlier pivot columns and makes one more |
| `Maths.GaussElimination` | 0ZS/BMS/Projekt/maths.cpp:87-122 | the system has exactly the solutions it had before; if its columns are independent and there are enough rows, the left side becomes unit columns, whatever the cells read beyond the last column hold |
| `Maths.EliminateColumn` | 0ZS/BMS/Projekt/maths.cpp:89-120 | one round keeps the system equivalent to the first one and, with independent columns, makes one more unit column |
| `Maths.EliminateRows` | 0ZS/BMS/Projekt/maths.cpp:113-120 | adding the pivot equation to every other equation with a one keeps the system equivalent and completes the unit column |
| `Maths.FindPivotCell` | 0ZS/BMS/Projekt/maths.cpp:91-98 | -1 exactly when no row from the diagonal on has a one in the column, otherwise the first that has |
| `Maths.SwapEquations` | 0ZS/BMS/Projekt/maths.cpp:101-110 | exchanges two equations, both sides; the right side goes through an 8-bit temporary without loss |
| `Maths.AddEquation` | 0ZS/BMS/Projekt/maths.cpp:115-118 | adds one equation to another modulo 2, both sides |
| `RowOperations.SystemTracksSolutions` | 0ZS/BMS/Projekt/maths.cpp:87-122 | a system reached by invertible row operations is solved by exactly the same vectors |
| `RowOperations.NoPivotMeansDependent` | 0ZS/BMS/Projekt/maths.cpp:98 | a column without pivot is a combination of others, so with independent columns the skip never happens |
| `Maths.BinaryProduct` | 0ZS/BMS/Projekt/maths.cpp:23-36 | the parity of the integer product is the product over the two-element field |
| `Maths.InnerProductParity` | 0ZS/BMS/Projekt/maths.cpp:29-34 | a sum of products is odd exactly when the inner product of the parities is one |
| `NullSpace.GeneratorIsNullSpaceBasis` | 0ZS/BMS/Projekt/matrices_generator.cpp:22-38 | the free columns of the transposed record are a basis of the null space of H: independent, annihilated by H, and spanning everything H annihilates |
| `NullSpace.GeneratorSound` | 0ZS/BMS/Projekt/matrices_generator.cpp:22-38 | H maps every combination of these columns to zero, and only the zero message gives the zero codeword |
| `NullSpace.GeneratorComplete` | 0ZS/BMS/Projekt/matrices_generator.cpp:22-38 | every vector that H maps to zero is such a combination |
| `NullSpace.SecondPivots` | 0ZS/BMS/Projekt/matrices_generator.cpp:24-26 | the second elimination meets its pivots in columns 0, 1, 2, ... as long as the first one had pivots |
| `NullSpace.SecondEliminationIsPaddedIdentity` | 0ZS/BMS/Projekt/matrices_generator.cpp:24-26 | the second elimination leaves an identity block of the size of the first pivot count, padded with zeros |
| `MatricesGenerator.SecondReduction` | 0ZS/BMS/Projekt/matrices_generator.cpp:24-28 | so the sum of its entries is exactly the number of pivots of the first elimination |
| `MatricesGenerator.PivotCount` | 0ZS/BMS/Projekt/matrices_generator.cpp:24-28 | transposing, reducing again and summing computes that number |
| `MatricesGenerator.FreeColumns` | 0ZS/BMS/Projekt/matrices_generator.cpp:30-37 | the product with the padded identity selects the last columns of the transposed record |
| `MatricesGenerator.CodingMatrixIsBasis` | 0ZS/BMS/Projekt/matrices_generator.cpp:15-39 | the coding matrix is a basis of the null space of H and its width is the number of columns of H less the rank of H |
| `MatricesGenerator.CodingMatrix` | 0ZS/BMS/Projekt/matrices_generator.cpp:15-39 | the chain of calls computes that matrix, for every 0/1 H with a row and a column |
| `Rank.RankIsUnique` | 0ZS/BMS/Projekt/matrices_generator.cpp:28 | a matrix has one rank only, so the width of the coding matrix is determined by H |
| `Rank.RankOfParityMatrix` | 0ZS/BMS/Projekt/matrices_generator.cpp:22-28 | the number of pivots is the rank of H: the size of an independent set of rows spanning the same rows |
| `Rank.SpanBound` | 0ZS/BMS/Projekt/matrices_generator.cpp:28 | independent rows are never more than the rows that span them |
| `Rank.RankOfSpanningSet` | 0ZS/BMS/Projekt/matrices_generator.cpp:28 | the rank is at most the size of any spanning set of rows, and equal to it exactly when that set is independent |
| `Shuffle.EveryArrangement` | 0ZS/BMS/Projekt/matrices_generator.cpp:66 | the draws of a shuffle can lead to every arrangement of a row |
| `Shuffle.ShuffledIsArrangement` | 0ZS/BMS/Projekt/matrices_generator.cpp:66 | whatever is drawn, a shuffle only rearranges |
| `Shuffle.ShuffleStep` | 0ZS/BMS/Projekt/matrices_generator.cpp:66 | one exchange in place takes the row shuffled so far one entry further |
| `ParityCheck.ParityCheckMatrix` | 0ZS/BMS/Projekt/matrices_generator.cpp:41-71 | fails for a negative number of rows and for an odd length; for every even length from 4 it returns the matrix that the numbers drawn determine, row by row |
| `ParityCheck.GeneratedExactly` | 0ZS/BMS/Projekt/matrices_generator.cpp:41-71 | the matrices that some drawing leads to are exactly those with the given first row in which every row with an even number has half weight and is followed by its complement |
| `ParityCheck.EveryOutcome` | 0ZS/BMS/Projekt/matrices_generator.cpp:60-68 | for every such matrix, numbers whose drawing leads to it |
| `ParityCheck.OutcomeIsGenerated` | 0ZS/BMS/Projekt/matrices_generator.cpp:50-68 | whatever is drawn, the rows are pairs of a half-weight row and its complement |
| `ParityCheck.FirstBlock` | 0ZS/BMS/Projekt/matrices_generator.cpp:51-55 | rows 0 and 1 hold a run of n/2 ones each, one after the other, and the rest is zero, for odd lengths too |
| `ParityCheck.ShuffleRow` | 0ZS/BMS/Projekt/matrices_generator.cpp:65-66 | shuffles one row as the numbers drawn for it say and touches no other |
| `ParityCheck.AddPair` | 0ZS/BMS/Projekt/matrices_generator.cpp:60-68 | two more rows become what the numbers drawn determine; fails exactly when the second of them does not exist |
| `ParityCheck.NegateInto` | 0ZS/BMS/Projekt/matrices_generator.cpp:67 | the next row becomes the complement of this one |
| `ParityCheck.RowWeight` | 0ZS/BMS/Projekt/matrices_generator.cpp:42-67 | every row has weight n/2 |
| `ParityCheck.ColumnWeight` | 0ZS/BMS/Projekt/matrices_generator.cpp:50-67 | every column has one one for each pair of rows, (n-2)/2 in all |
| `ParityCheck.RowFromRepresentatives` | 0ZS/BMS/Projekt/matrices_generator.cpp:57-67 | every row is a combination of the even rows and row 1 |
| `ParityCheck.RankAtMostHalf` | 0ZS/BMS/Projekt/matrices_generator.cpp:41-71 | the rank of a generated matrix is at most n/2, and n/2 exactly when the even rows together with row 1 are independent |
| `ParityCheck.RepeatedRow` | 0ZS/BMS/Projekt/matrices_generator.cpp:60-67 | two equal shuffled rows make them dependent |
| `ParityCheck.ShortfallPossible` | 0ZS/BMS/Projekt/matrices_generator.cpp:66 | from length 6 on a drawing that moves nothing leaves the representative rows dependent: the number of message bits the encoder relies on is missed |
| `ParityCheck.FullRankPossible` | 0ZS/BMS/Projekt/matrices_generator.cpp:66 | for every length another drawing leaves them independent |
| `Codec.IsCodeWord` | 0ZS/BMS/Projekt/decoder.cpp:189-192 | accepts exactly the vectors that H maps to zero |
| `Codec.GetMessageFromCodeword` | 0ZS/BMS/Projekt/decoder.cpp:243-269 | returns the message whose codeword it is given, whenever there is one and the columns of the coding matrix are independent; the matrix and the codeword stay as they are |
| `Codec.BackSubstitute` | 0ZS/BMS/Projekt/decoder.cpp:254-266 | after a full elimination nothing is left to subtract: the message is the top of the right side |
| `Codec.TailProduct` | 0ZS/BMS/Projekt/decoder.cpp:261-265 | what is subtracted from a bit is zero once the columns are unit columns |
| `Codec.Eliminated` | 0ZS/BMS/Projekt/decoder.cpp:249-252 | eliminating on copies gives unit columns and puts the message on top of the right side |
| `Codec.ComposeChars` | 0ZS/BMS/Projekt/decoder.cpp:293-304 | the characters spelled by full groups of eight bits, in order, the rest ignored |
| `Codec.ComposeByte` | 0ZS/BMS/Projekt/decoder.cpp:298-301 | eight bits in reverse order are the digits of the character, most significant first |
| `Codec.RunDecode` | 0ZS/BMS/Projekt/decoder.cpp:281-304 | from a codeword on: prints the characters of the message that encodes to it |
| `Codec.InputMatrix` | 0ZS/BMS/Projekt/encoder.cpp:62-70 | one column with the bits of the input, the most significant bit of each character first |
| `Codec.EncodeColumn` | 0ZS/BMS/Projekt/encoder.cpp:72-73 | the codeword of a column of bits |
| `Codec.RunEncode` | 0ZS/BMS/Projekt/encoder.cpp:50-78 | refuses another input size; otherwise encodes exactly when the rank of H is the number of input bits, and then prints a codeword of H, the product of the coding matrix and the input bits |
| `Codec.RankDecides` | 0ZS/BMS/Projekt/encoder.cpp:60-73 | the product with the coding matrix exists exactly when the rank leaves as many free bits as the input has |
| `Codec.FreshCodingMatrix` | 0ZS/BMS/Projekt/matrices_generator.cpp:15-71 | the coding matrix of a generated matrix has at least n/2 columns, and n/2 exactly when the drawing left the representative rows independent |
| `Codec.EncodeWithFreshMatrix` | 0ZS/BMS/Projekt/encoder.cpp:37-73 | the empty input fails for want of a matrix; any other is encoded exactly when the drawing left the representative rows independent, and never with a drawing that moves nothing |
| `Codec.SomeDrawingEncodes` | 0ZS/BMS/Projekt/encoder.cpp:48-73 | for every other input there is a drawing with which it is encoded |
| `Codec.CharsOfMessageBits` | 0ZS/BMS/Projekt/decoder.cpp:292-304 | packing bits into characters undoes unpacking characters into bits |
| `Codec.MessageBitsValue` | 0ZS/BMS/Projekt/encoder.cpp:62-70 | the bits of a text are the binary digits of the number whose digits to base 256 are its characters, the most significant first |
| `Codec.EncodeThenDecode` | 0ZS/BMS/Projekt/decoder.cpp:271-304 | round trip: whenever encoding succeeds, decoding its output prints the input |
| `Codec.MessageRoundTrip` | 0ZS/BMS/Projekt/decoder.cpp:243-269 | round trip for every bit vector of the length the code carries, byte-sized or not |
| `Codec.ReencodeCodeword` | 0ZS/BMS/Projekt/decoder.cpp:189-269 | inverse direction: a vector is accepted exactly when encoding the message extracted from it gives it back |
| `Ramsey.GetNeighbors` | 0ZS/GAL/Projekt/RamseySolver.cpp:35-60 | exactly the given nodes adjacent to the node, also with parallel edges and self-loops |
| `Ramsey.GetNeighborsComplement` | 0ZS/GAL/Projekt/RamseySolver.cpp:62-79 | exactly the other given nodes, without the node itself |
| `Ramsey.RamseySets` | 0ZS/GAL/Projekt/RamseySolver.cpp:81-112 | for every choice of pivots: a clique and an independent set within the nodes, both non-empty when the nodes are, with nodes + 1 at most binomial(c + i, c) |
| `Ramsey.RamseyStep` | 0ZS/GAL/Projekt/RamseySolver.cpp:87-111 | the bounds of the two parts give the bound of the whole when the larger clique and the larger independent set are kept |
| `Ramsey.PivotSplits` | 0ZS/GAL/Projekt/RamseySolver.cpp:93-102 | the pivot, its neighbours and its non-neighbours partition the nodes |
| `Ramsey.ChooseMonotone` | 0ZS/GAL/Projekt/RamseySolver.cpp:107-109 | binomial(a + b, a) grows with a and with b |
| `Ramsey.RemoveCliques` | 0ZS/GAL/Projekt/RamseySolver.cpp:129-147 | the loop ends with the removed cliques partitioning the nodes and an independent set so large that with every removed clique it bounds the nodes left at that stage; the returned list is the removed one shifted by one, ending with an empty clique |
| `Ramsey.CliqueRemoval` | 0ZS/GAL/Projekt/RamseySolver.cpp:114-150 | partition into cliques, an independent set that meets the Ramsey bound with each of them for the nodes left when it was found, and: no independent subset is larger than the number of cliques |
| `Ramsey.CoverBoundsIndependent` | 0ZS/GAL/Projekt/RamseySolver.cpp:128-147 | an independent set meets each clique of a cover at most once |
| `Ramsey.CoverGrows` | 0ZS/GAL/Projekt/RamseySolver.cpp:131-135 | removing one more clique extends the partition |
| `Ramsey.Solve` | 0ZS/GAL/Projekt/RamseySolver.cpp:17-26 | an independent set of the graph, empty only for the empty graph, with a partition of the nodes into cliques: no independent set is larger than the number of cliques, and the set meets the Ramsey bound with each clique for the nodes left when it was found |
| `Greedy.GreedyIndependentSet` | 0ZS/GAL/Projekt/GreedySolver.cpp:14-59 | for every order of ties: a maximal independent set of at least the sum of 1/(degree + 1) nodes, the degree being the number of edge ends at a node, parallel edges and self-loops included |
| `Graphs.DegreeCounts` | 0ZS/GAL/Projekt/GreedySolver.cpp:17-20 | the degree that the queue compares is the number of edges that start at the node and of those that end there |
| `Graphs.DegreeIsNeighbours` | 0ZS/GAL/Projekt/GreedySolver.cpp:17-20 | without self-loops and parallel edges that is the number of neighbours |
| `Greedy.Decide` | 0ZS/GAL/Projekt/GreedySolver.cpp:38-55 | one turn of the loop keeps the output independent, every node out of the working set excluded, and the output ahead of the sum of the nodes erased |
| `Greedy.EraseEndpoints` | 0ZS/GAL/Projekt/GreedySolver.cpp:47-55 | takes the node's neighbours out of the working set, and the node itself if it has an edge |
| `Greedy.PopLeastDegree` | 0ZS/GAL/Projekt/GreedySolver.cpp:38-39 | a node with the least number of edge ends among those queued |
| `Greedy.ChooseNode` | 0ZS/GAL/Projekt/GreedySolver.cpp:44-55 | choosing a node that is still in the working set keeps the invariant |
| `Greedy.GreedyStep` | 0ZS/GAL/Projekt/GreedySolver.cpp:44-55 | a chosen node pays for all nodes that leave with it |
| `Greedy.ChoicePays` | 0ZS/GAL/Projekt/GreedySolver.cpp:16-20 | a node and neighbours of no smaller degree have shares that sum to at most 1 |
| `Greedy.DecidedIsMaximal` | 0ZS/GAL/Projekt/GreedySolver.cpp:35-58 | when the queue is empty the output is a maximal independent set |
| `Bma.InitializeRounds` | 0ZS/GAL/Projekt/BMASolver.cpp:93-136 | on every graph: round 0 holds for each node the set of the node and its out-targets, at its size, and all later rounds infinite cost |
| `Bma.OutRoundIsFirst` | 0ZS/GAL/Projekt/BMASolver.cpp:101-125 | with edges in both directions these sets are the closed neighbourhoods |
| `Bma.InitialExclude` | 0ZS/GAL/Projekt/BMASolver.cpp:101-125 | the node and the targets of its out-edges, and their number; the closed neighbourhood when edges are stored in both directions |
| `Bma.OutIsAllExactly` | 0ZS/GAL/Projekt/BMASolver.cpp:111-118 | the out-edges give every closed neighbourhood exactly when every edge between different nodes has its reverse |
| `Bma.Included` | 0ZS/GAL/Projekt/BMASolver.cpp:57-59 | the nodes not excluded |
| `Bma.Extend` | 0ZS/GAL/Projekt/BMASolver.cpp:174-195 | the set gained by going on to v is its closed neighbourhood; the cost grows by one for v and one for every place in the edge list that joins v and a node not excluded |
| `Graphs.OutsideCounts` | 0ZS/GAL/Projekt/BMASolver.cpp:185-195 | the entries at a node that lead outside a set are as many as the places in the edge list that leave the node for such nodes or come from them |
| `Graphs.OutsideIsTwice` | 0ZS/GAL/Projekt/BMASolver.cpp:185-195 | with edges in both directions, none repeated and no self-loops, that is twice the number of neighbours outside the set |
| `Bma.CostOfPath` | 0ZS/GAL/Projekt/BMASolver.cpp:93-227 | every recorded cost is that of the chain it ends: the first closed neighbourhood, and for each later node one and its edges to nodes outside all closed neighbourhoods before it |
| `Bma.CostIsExcluded` | 0ZS/GAL/Projekt/BMASolver.cpp:93-227 | with edges in both directions, none repeated and no self-loops, the cost in round k is twice the number of excluded nodes, less k and the size of the first closed neighbourhood |
| `Bma.RelaxNodesFirst` | 0ZS/GAL/Projekt/BMASolver.cpp:155-218 | the predecessor of a node is the first one, in the order of the graph, among those that offer the least cost |
| `Bma.RoundsDetermined` | 0ZS/GAL/Projekt/BMASolver.cpp:93-227 | so the graph with the order of its nodes determines all costs, excluded sets and chains |
| `Bma.RelaxPair` | 0ZS/GAL/Projekt/BMASolver.cpp:168-218 | changes the next round exactly as one relaxation from u to v does, reports whether it did, and no other round |
| `Bma.RelaxFrom` | 0ZS/GAL/Projekt/BMASolver.cpp:157-219 | relaxes from u to every node not excluded by u, in order, and reports whether the next round has a finite cost |
| `Bma.RelaxRound` | 0ZS/GAL/Projekt/BMASolver.cpp:151-220 | relaxes all pairs of one round and leaves all other rounds alone |
| `Bma.RelaxStepKeeps` | 0ZS/GAL/Projekt/BMASolver.cpp:197-218 | a relaxation keeps every entry linked to its predecessor and settles the pair without unsettling others |
| `Bma.RelaxManyKeeps` | 0ZS/GAL/Projekt/BMASolver.cpp:164-219 | so does relaxing from one node to many |
| `Bma.RelaxNodesKeeps` | 0ZS/GAL/Projekt/BMASolver.cpp:155-220 | after a full round every entry is linked and every pair is settled: nothing reachable is missed and no offer is cheaper |
| `Bma.RelaxedNext` | 0ZS/GAL/Projekt/BMASolver.cpp:147-227 | one more round keeps all earlier rounds and adds one that is done |
| `Bma.ChainInvariant` | 0ZS/GAL/Projekt/BMASolver.cpp:94-227 | following the predecessors from any finite entry of round k gives k + 1 distinct, pairwise non-adjacent nodes, and the excluded set is exactly the union of their closed neighbourhoods |
| `Bma.ExtendChain` | 0ZS/GAL/Projekt/BMASolver.cpp:171-213 | going on to a node that is not excluded keeps this |
| `Bma.RoundsAreFew` | 0ZS/GAL/Projekt/BMASolver.cpp:147-227 | a round with a finite cost has a number below the number of nodes |
| `Bma.LastChainIsMaximal` | 0ZS/GAL/Projekt/BMASolver.cpp:222-226 | when nothing is reached in the next round, every chain of this one is a maximal independent set |
| `Bma.Relaxation` | 0ZS/GAL/Projekt/BMASolver.cpp:145-227 | the loop ends by its break, in a round that has finite costs and is followed by one that has none |
| `Bma.GetResult` | 0ZS/GAL/Projekt/BMASolver.cpp:241-278 | fails exactly when the round has no finite cost, else returns the chain of some finite entry |
| `Bma.Solve` | 0ZS/GAL/Projekt/BMASolver.cpp:83-239 | on every non-empty graph with edges in both directions: a maximal independent set of exactly lastRoundI + 1 nodes, lastRoundI at most the number of nodes less one, which is the chain of a node of the last round of the finished table |
| `Bma.OneWayEdgeMisleads` | 0ZS/GAL/Projekt/BMASolver.cpp:111-227 | on two nodes with an edge in one direction only, the relaxation reaches a node in round 1 and none in round 2, and every chain of round 1 is not independent |
| `Graphs.DominatingIsMaximal` | 0ZS/GAL/Projekt/BMASolver.cpp:222-226 | an independent set with a neighbour for every other node cannot be extended |
| `AStar.Solve` | 0ZS/SUI/Projekt 1/sui-solution.cc:128-224 | with a heuristic that never exceeds the remaining steps and is above -1 at final states: a non-empty result is a shortest solution, it is empty exactly when the start is final or nothing final can be reached, and the containers go through a run that ends with a final state of that length on top |
| `AStar.NearestExactlyAboveMinusOne` | 0ZS/SUI/Projekt 1/sui-solution.cc:151-203 | for every real b: whatever is found in any run is nearest, for all problems on four states and all lower bounds of at least b at final states, exactly when b is above -1 |
| `AStar.AdmissibleFindsNearest` | 0ZS/SUI/Projekt 1/sui-solution.cc:151-203 | in every run on any problem, whichever entries are taken among equals, a lower bound above -1 at final states makes whatever is found a nearest final state |
| `AStar.MisledFromMinusOne` | 0ZS/SUI/Projekt 1/sui-solution.cc:151-203 | for every value of -1 or less at a goal, and a tie at -1, a lower bound with a run of two rounds that finds that goal at cost 2, though one step leads to another |
| `AStar.RunKeeps` | 0ZS/SUI/Projekt 1/sui-solution.cc:151-203 | every turn of a run, whatever the heuristic is, keeps all records justified by paths and all discovered states live or expanded |
| `AStar.Reconstruct` | 0ZS/SUI/Projekt 1/sui-solution.cc:208-223 | following predecessors for as many steps as the cost gives a shortest solution, though costs were lowered meanwhile |
| `AStar.PredecessorIsExact` | 0ZS/SUI/Projekt 1/sui-solution.cc:213-217 | on the way back from a state of optimal cost the predecessor is never null and its recorded cost is exactly one less |
| `AStar.LiveOnSolution` | 0ZS/SUI/Projekt 1/sui-solution.cc:151-203 | on every solution some entry of the frontier is not outdated and promises no more than the length of that solution |
| `AStar.TopIsNearest` | 0ZS/SUI/Projekt 1/sui-solution.cc:166-171 | a final state on top of the frontier, with a heuristic above -1 there, has the cost of a shortest solution |
| `AStar.EmptyFrontier` | 0ZS/SUI/Projekt 1/sui-solution.cc:205-206 | an empty frontier means that no final state can be reached |
| `AStar.DropOutdated` | 0ZS/SUI/Projekt 1/sui-solution.cc:158-164 | dropping an outdated entry keeps the invariant |
| `AStar.UpdateKeeps` | 0ZS/SUI/Projekt 1/sui-solution.cc:187-201 | recording a new state or a lower cost keeps every record justified by a path |
| `AStar.UpdateExpands` | 0ZS/SUI/Projekt 1/sui-solution.cc:187-201 | and keeps every other state either live or expanded |
| `AStar.Discover` | 0ZS/SUI/Projekt 1/sui-solution.cc:177-202 | one action of the expansion keeps the invariant and progresses |
| `AStar.Expand` | 0ZS/SUI/Projekt 1/sui-solution.cc:176-202 | a whole expansion makes of the containers what its actions in turn make of them, restores the invariant and progresses |
| `AStar.SumCostsDrops` | 0ZS/SUI/Projekt 1/sui-solution.cc:192-201 | lowering a cost lowers the sum of all costs, so reopening ends |
| `AStar.Top` | 0ZS/SUI/Projekt 1/sui-solution.cc:156 | an entry of least cost, any one among equals |
| `StudentHeuristic.DistanceLowerBound` | 0ZS/SUI/Projekt 1/sui-solution.cc:376-408 | the number of cuts that part the stacks into as few sequences as possible |
| `StudentHeuristic.FewestIsLeast` | 0ZS/SUI/Projekt 1/sui-solution.cc:390-397 | of all ways to cut a stack into pieces whose values fall by one and whose colours alternate, one has that many pieces and none has fewer |
| `StudentHeuristic.WellPlaced` | 0ZS/SUI/Projekt 1/sui-solution.cc:383-401 | the inner loop counts the cards in place: one more than the others is the least number of sequences that the stack can be cut into |
| `StudentHeuristic.NoFewerPieces` | 0ZS/SUI/Projekt 1/sui-solution.cc:390-397 | every cutting has a piece for the first card and one for every card out of place |
| `StudentHeuristic.HeuristicIsAdmissible` | 0ZS/SUI/Projekt 1/sui-solution.cc:376-408 | in every game whose actions take at most one card off the stacks and that ends with none on them it never exceeds the remaining steps, as A* needs |
| `DepthFirst.Solve` | 0ZS/SUI/Projekt 1/sui-solution.cc:227-300 | ends, and returns exactly what the recursive search returns, which tries the successors from the last to the first and stops at the first final one; so a solution within the limit, and nothing exactly when the start is final or no solution is within the limit; a limit below 1 acts like 1 |
| `DepthFirst.AnswerExpanded` | 0ZS/SUI/Projekt 1/sui-solution.cc:268-292 | a turn that finds nothing leaves the outcome of searching the stack as it is: replacing an item by its children searches them in the order of the recursion |
| `DepthFirst.AnswerFound` | 0ZS/SUI/Projekt 1/sui-solution.cc:273-277 | a turn that meets a final successor ends with that outcome |
| `DepthFirst.Round` | 0ZS/SUI/Projekt 1/sui-solution.cc:246-292 | one turn of the loop finds a solution or keeps the shared action list a path to every stacked state, keeps every solution pending and shrinks the search tree |
| `DepthFirst.CutBack` | 0ZS/SUI/Projekt 1/sui-solution.cc:254-262 | removes as many actions as levels are jumped over |
| `DepthFirst.Expand` | 0ZS/SUI/Projekt 1/sui-solution.cc:268-283 | stops at the first final successor, or pushes all successors when above the limit, and tells which |
| `DepthFirst.ExpandKeeps` | 0ZS/SUI/Projekt 1/sui-solution.cc:268-283 | replacing an item by its children keeps the shared list right, loses no solution and makes the remaining search smaller |
| `DepthFirst.ChildPending` | 0ZS/SUI/Projekt 1/sui-solution.cc:268-283 | a solution through the item goes on through one of its children |
| `DepthFirst.CutKeeps` | 0ZS/SUI/Projekt 1/sui-solution.cc:254-262 | cutting the shared list back to the item's depth keeps all of this |
| `DepthFirst.DeadEnd` | 0ZS/SUI/Projekt 1/sui-solution.cc:285-289 | popping the action of a dead end keeps all of this |
| `DepthFirst.SuccessOf` | 0ZS/SUI/Projekt 1/sui-solution.cc:273-277 | when a successor is final the shared list is a solution within the limit |
| `DepthFirst.FirstOnTheWay` | 0ZS/SUI/Projekt 1/sui-solution.cc:273-277 | every solution starts with one that meets its first final state at its end, so stopping there misses none |
| `BreadthFirst.Solve` | 0ZS/SUI/Projekt 1/sui-solution.cc:303-374 | a non-empty result is a shortest solution; it is empty exactly when the start is final or nothing final can be reached |
| `BreadthFirst.Expand` | 0ZS/SUI/Projekt 1/sui-solution.cc:331-369 | expands one state or finds a shortest solution at it |
| `BreadthFirst.Finish` | 0ZS/SUI/Projekt 1/sui-solution.cc:334-355 | the path found is shortest |
| `BreadthFirst.Reconstruct` | 0ZS/SUI/Projekt 1/sui-solution.cc:336-354 | following the links gives a solution one longer than the level of the state |
| `BreadthFirst.NoSolutionWithin` | 0ZS/SUI/Projekt 1/sui-solution.cc:321-371 | no solution is as short as the level of the first open state, and none exists when none is open |
| `BreadthFirst.ClosedAlong` | 0ZS/SUI/Projekt 1/sui-solution.cc:357-368 | along any action sequence that short every state has been discovered, at a level no greater than the number of steps to it |
| `BreadthFirst.Discover` | 0ZS/SUI/Projekt 1/sui-solution.cc:357-368 | putting a new state at the end keeps the list in order of levels |
| `SerialNumbers.OrderIsModular` | 1LS/PDS/Projekt/serial.py:32-48 | equality and order are those of the difference modulo 2^bits |
| `SerialNumbers.OrderInWindow` | 1LS/PDS/Projekt/serial.py:32-51 | within half the range they are those of the numbers themselves; the greater-than of the code means not less |
| `SerialNumbers.EqualWithinTurn` | 1LS/PDS/Projekt/serial.py:32-36 | numbers less than a turn apart are equal only if they are the same |
| `SerialNumbers.PlusOne` | 1LS/PDS/Projekt/serial.py:17-27 | adding one is the successor, across the wrap |
| `SerialNumbers.PlusIs` | 1LS/PDS/Projekt/serial.py:17-27 | adding n gives the serial number of the sum, across any number of wraps, and is refused exactly when n is half the range or more |
| `SerialNumbers.HalfRangeIsAmbiguous` | 1LS/PDS/Projekt/serial.py:41-51 | two numbers are each greater than the other exactly when they are equal or half the range apart |
| `SerialNumbers.WindowIsTight` | 1LS/PDS/Projekt/serial.py:41-51 | one beyond the window a number seems to lie behind, one before it ahead |
| `UtpReassembly.UtpFlow.AddSegment` | 1LS/PDS/Projekt/utp_tracer.py:395-436 | for any recognised packet: afterwards what was delivered is exactly the packets before the next missing one, in order, once each, and pending holds exactly the received packets beyond it, for both directions and across wraps |
| `UtpReassembly.RightExactlyWhenRecognised` | 1LS/PDS/Projekt/utp_tracer.py:395-412 | for every packet that may arrive: the branch it takes leaves the flow right for the passes over the list exactly when it is in the window, or older with a distance that is 1 to 0x7FFF modulo 0x10000 |
| `UtpReassembly.RecognisedKeeps` | 1LS/PDS/Projekt/utp_tracer.py:395-412 | each of the three branches leaves delivered packets and pending list right, with the next packet one further just when the awaited one arrived |
| `UtpReassembly.WrongDelivery` | 1LS/PDS/Projekt/utp_tracer.py:397-403 | a packet that is not awaited but has the awaited number is delivered in place of it, and no next packet makes that right |
| `UtpReassembly.UtpFlow.Drain` | 1LS/PDS/Projekt/utp_tracer.py:414-436 | the fixpoint loop and the final filter restore that state |
| `UtpReassembly.UtpFlow.DrainPass` | 1LS/PDS/Projekt/utp_tracer.py:417-434 | one pass over the list delivers what is due and reports whether anything was; if not, nothing is due |
| `UtpReassembly.UtpFlow.NewSegment` | 1LS/PDS/Projekt/utp_tracer.py:398-403 | delivers a payload and steps the sequence number of its direction |
| `UtpReassembly.DeliveredIsPrefix` | 1LS/PDS/Projekt/utp_tracer.py:395-436 | spells out the state between calls: packets first..next-1 delivered, next missing, pending exactly the received ones beyond |
| `UtpReassembly.OrderOfArrivalIsIrrelevant` | 1LS/PDS/Projekt/utp_tracer.py:395-436 | what was delivered depends on which packets arrived only, not on their order or duplicates |
| `UtpReassembly.AwaitedIsNext` | 1LS/PDS/Projekt/utp_tracer.py:419-428 | a pending packet has the awaited 16-bit number exactly when it is the awaited packet |
| `UtpReassembly.DeliverPendingKeeps` | 1LS/PDS/Projekt/utp_tracer.py:420-433 | delivering a pending packet keeps the state of the loop |
| `UtpReassembly.RemovedIffDelivered` | 1LS/PDS/Projekt/utp_tracer.py:415-436 | a pending entry is on the removed list exactly when its packet has been delivered |
| `UtpReassembly.KeptEntries` | 1LS/PDS/Projekt/utp_tracer.py:436 | the filter keeps exactly the entries not on the removed list |
| `UtpReassembly.FilterSettles` | 1LS/PDS/Projekt/utp_tracer.py:436 | after the filter the list holds exactly the received packets beyond the next one |
| `UtpReassembly.ListAfterArrival` | 1LS/PDS/Projekt/utp_tracer.py:397-412 | a packet that is next or a duplicate leaves the list right |
| `UtpReassembly.ListAfterQueueing` | 1LS/PDS/Projekt/utp_tracer.py:407-409 | so does a packet put on the list |
| `UtpReassembly.LostBeyondWindow` | 1LS/PDS/Projekt/utp_tracer.py:410-412 | a packet one beyond the window is taken for a duplicate, and is then neither delivered nor pending |
| `UtpReassembly.QueuedBeforeWindow` | 1LS/PDS/Projekt/utp_tracer.py:407-409 | a duplicate one before the window is queued as if it were ahead, and the list is wrong |
| `BitTorrentFramer.ByteFIFO.Put` | 1LS/PDS/Projekt/btp_parser.py:19-20 | appends |
| `BitTorrentFramer.ByteFIFO.Get` | 1LS/PDS/Projekt/btp_parser.py:22-26 | takes from the front as many bytes as asked for, or all there are |
| `BitTorrentFramer.BitTorrentParser.ProcessSegment` | 1LS/PDS/Projekt/btp_parser.py:125-146 | the loop on the object's fields computes the feed of the state, and ends although empty messages take no bytes; a new parser given 68 bytes or more turns wrong exactly when they do not begin with the header of the protocol |
| `BitTorrentFramer.FirstBytesDecide` | 1LS/PDS/Projekt/btp_parser.py:151-160 | that header is byte 19 and the nineteen bytes of the protocol name, spelled out |
| `BitTorrentFramer.TestsHeader` | 1LS/PDS/Projekt/btp_parser.py:158 | the test of the code looks at exactly these twenty bytes |
| `BitTorrentFramer.BitTorrentParser.ProcessNext` | 1LS/PDS/Projekt/btp_parser.py:131-146 | one turn of the loop is one step of the state |
| `BitTorrentFramer.BitTorrentParser.ProcessHandshake` | 1LS/PDS/Projekt/btp_parser.py:151-168 | takes 68 bytes and marks the stream wrong unless they name the protocol |
| `BitTorrentFramer.BitTorrentParser.ProcessMessage` | 1LS/PDS/Projekt/btp_parser.py:170-187 | takes the announced number of bytes |
| `BitTorrentFramer.ChunkingInvariance` | 1LS/PDS/Projekt/btp_parser.py:125-146 | feeding a and then b equals feeding a + b exactly when the handshake was over before, or the first 68 bytes up to the end of a are incomplete or name the protocol, or b is empty |
| `BitTorrentFramer.FeedWrong` | 1LS/PDS/Projekt/btp_parser.py:151-160 | a stream turns wrong exactly when its first 68 bytes are complete and do not name the protocol |
| `BitTorrentFramer.LoopBuffered` | 1LS/PDS/Projekt/btp_parser.py:131-146 | running the loop, adding bytes and running it again equals adding the bytes first |
| `BitTorrentFramer.LoopGrows` | 1LS/PDS/Projekt/btp_parser.py:126-146 | frames are only added, and a stream once past its handshake does not turn wrong |
| `BitTorrentFramer.FeedIsLossless` | 1LS/PDS/Projekt/btp_parser.py:125-187 | frames, a length prefix that has been read and the buffer together are exactly the bytes fed |
| `BitTorrentFramer.ParseConversation` | 1LS/PDS/Projekt/btp_parser.py:125-187 | all bytes of a valid handshake and messages at once give exactly these frames, and nothing is left over |
| `BitTorrentFramer.ParsePrefix` | 1LS/PDS/Projekt/btp_parser.py:125-187 | the first n bytes give exactly the frames that end within them |
| `BitTorrentFramer.FeedAllIsFeed` | 1LS/PDS/Projekt/btp_parser.py:125-187 | any number of chunks equals one call exactly when the first 68 bytes are incomplete or name the protocol, or the chunks after the one that completes them are empty |
| `BitTorrentFramer.CuttingMatters` | 1LS/PDS/Projekt/btp_parser.py:125-146 | after 68 zero bytes an empty message is taken in the same segment and dropped in the next one |
| `BitTorrentFramer.PackUnpack` | 1LS/PDS/Projekt/btp_parser.py:133-134 | a length prefix is determined by its value |
| `BitTorrentFramer.UnpackOrder` | 1LS/PDS/Projekt/btp_parser.py:133-134 | length prefixes order like their bytes, the first that differs being decisive |
| `TrafficMonitor.DeliveredBytes` | 1LS/PDS/Projekt/main_tracer.py:480-485 | what reassembly has delivered is a beginning of the bytes sent |
| `TrafficMonitor.SegmentsAsOne` | 1LS/PDS/Projekt/main_tracer.py:480-485 | the segments give the same parse as one call with their bytes |
| `TrafficMonitor.AllDelivered` | 1LS/PDS/Projekt/main_tracer.py:480-485 | when every packet has arrived, in whatever order, all bytes have been delivered |
| `TrafficMonitor.EndToEnd` | 1LS/PDS/Projekt/main_tracer.py:480-485 | packets in any order within the window: the frames are a beginning of those sent, and all of them once every packet has arrived |
| `DistanceField.EvaluateFieldAt` | 0ZS/AVS/Projekt 2/parallel_builder/tree_mesh_builder.cpp:71-86 | the root of the least squared distance to a point of the cloud, or of the largest number |
| `DistanceField.Triangle` | 0ZS/AVS/Projekt 2/parallel_builder/tree_mesh_builder.cpp:77-79 | the triangle inequality for these distances, without a root |
| `DistanceField.FieldFallsSlowly` | 0ZS/AVS/Projekt 2/parallel_builder/tree_mesh_builder.cpp:71-86 | from one place to another the field falls by no more than their distance, also where no point is in reach |
| `DistanceField.IsBlockEmpty` | 0ZS/AVS/Projekt 2/parallel_builder/tree_mesh_builder.cpp:153-164 | decides the test at the middle of the block with the margin of half the diagonal |
| `DistanceField.BlockAroundMiddle` | 0ZS/AVS/Projekt 2/parallel_builder/tree_mesh_builder.cpp:155-161 | every point of a block is within half the square root of three times its edge of its middle |
| `DistanceField.EmptyBlockIsAbove` | 0ZS/AVS/Projekt 2/parallel_builder/tree_mesh_builder.cpp:153-164 | in a block that is found empty the field exceeds the iso level everywhere |
| `DistanceField.EmptyExactly` | 0ZS/AVS/Projekt 2/parallel_builder/tree_mesh_builder.cpp:153-164 | for iso levels from zero on: a block is found empty exactly when no cloud with the same value at its middle has a point of the block that is not above the iso level, so no smaller margin is sound and no larger one is needed |
| `OctreeMesh.SkippedExactly` | 0ZS/AVS/Projekt 2/parallel_builder/tree_mesh_builder.cpp:130-132 | the traversal skips exactly these blocks |
| `OctreeMesh.EmptyBlocksHoldNothing` | 0ZS/AVS/Projekt 2/parallel_builder/tree_mesh_builder.cpp:130-132 | so no cube of a skipped block makes a triangle |
| `OctreeMesh.MarchLoop` | 0ZS/AVS/Projekt 2/parallel_builder/loop_mesh_builder.cpp:42-50 | the triple loop adds up every cube of the grid once |
| `OctreeMesh.OctreeTraverse` | 0ZS/AVS/Projekt 2/parallel_builder/tree_mesh_builder.cpp:110-151 | the recursion on blocks, with the serial loops below the cutoff, adds up the traversal |
| `OctreeMesh.TraverseSerially` | 0ZS/AVS/Projekt 2/parallel_builder/tree_mesh_builder.cpp:112-128 | below the cutoff the loops add up the cubes of the block at their places |
| `OctreeMesh.DoBlock` | 0ZS/AVS/Projekt 2/parallel_builder/tree_mesh_builder.cpp:94-108 | adds the octant in its direction to the running total |
| `OctreeMesh.MarchTree` | 0ZS/AVS/Projekt 2/parallel_builder/tree_mesh_builder.cpp:22-49 | on every grid of power-of-two size the builder's total is that of the loop |
| `OctreeMesh.TraversalTotal` | 0ZS/AVS/Projekt 2/parallel_builder/tree_mesh_builder.cpp:110-151 | when only blocks without triangles are skipped, the traversal adds up exactly the cubes that halving the edge leads to, for every edge length |
| `OctreeMesh.OctreeRefinesLoop` | 0ZS/AVS/Projekt 2/parallel_builder/tree_mesh_builder.cpp:110-151 | for a power-of-two grid the two totals are equal, for every mesh |
| `OctreeMesh.TotalsAgree` | 0ZS/AVS/Projekt 2/parallel_builder/tree_mesh_builder.cpp:134-147 | for every grid size the octree never counts more than the loop, and the totals are equal exactly when the cubes that halving the edge never leads to make no triangle |
| `OctreeMesh.AgreeOnAllMeshes` | 0ZS/AVS/Projekt 2/parallel_builder/tree_mesh_builder.cpp:134 | whatever the largest number is, the builders agree on all meshes exactly when the grid size is zero or a power of two |
| `OctreeMesh.LosesCorner` | 0ZS/AVS/Projekt 2/parallel_builder/tree_mesh_builder.cpp:134 | on any other grid every mesh with a triangle in the last cube has fewer triangles with the octree than with the loop |
| `OctreeMesh.CornerMeshIsValid` | 0ZS/AVS/Projekt 2/parallel_builder/tree_mesh_builder.cpp:134 | a cloud of one point at the far corner of the grid, with a triangle in the last cube, is such a mesh |
| `OctreeMesh.OnlyTheCornerWithin` | 0ZS/AVS/Projekt 2/parallel_builder/tree_mesh_builder.cpp:71-86 | that corner is the only grid point of this cloud that is not above the iso level, so the other cubes of the grid cannot have triangles |
| `OctreeMesh.CoversAll` | 0ZS/AVS/Projekt 2/parallel_builder/tree_mesh_builder.cpp:134 | halving leads to every cube along an axis exactly when the edge is zero or a power of two |
| `OctreeMesh.VisitedOnce` | 0ZS/AVS/Projekt 2/parallel_builder/tree_mesh_builder.cpp:110-151 | with a power-of-two edge each cube of the block that is not under a skipped block is built exactly once, and no other cube is |
| `GridSums.Octants` | 0ZS/AVS/Projekt 2/parallel_builder/tree_mesh_builder.cpp:140-147 | the sum over a cube is the sum over its eight octants |
| `GridSums.BoxZero` | 0ZS/AVS/Projekt 2/parallel_builder/loop_mesh_builder.cpp:42-50 | a box sums to zero exactly when each of its cubes does |

## Left out

- Belief propagation (`log_belief_propagation`, `decode`): floating point convergence; the model of decoding starts from the bits it delivers.
- Maths.BinaryProduct: integers for the products in 32-bit floats, which are exact up to an inner dimension of 2^24; the 64-bit `binaryProductFloat` of isCodeWord is the same product.
- Codec.RunDecode: a parity check matrix of full column rank is excluded, because the code then indexes an empty message; the size check before it and the note on leftover bits only print.
- ParityCheck.ParityCheckMatrix: the random engine and `std::shuffle` are an arbitrary function of row and step that draws the place to exchange with; lengths 2 and 3, for which the code writes its first block outside of the matrix, are excluded. The encoder only asks for multiples of 16.
- Matrix files, reading of input, command lines, `main.cpp`, logging and timing in all five programs.
- Ramsey.RamseySets: the random pivot is any node; `std::set_difference` and the ordered sets are finite sets.
- Ramsey.RemoveCliques: `std::set_difference` (RamseySolver.cpp:133) gets no comparator and so compares node addresses, while the sets are ordered by index (MISSolver.h:18); the model assumes that addresses ascend with indices. Otherwise a clique may be removed only in part.
- Bma.Included: a set difference in the order of the node list, as `std::set_difference` computes it when the list is ascending, which is how OGDF numbers the nodes of a new graph.
- Bma.Solve: edges in both directions are required, as `graph_complement` in `main.cpp` makes them (Bma.OutIsAllExactly says what else would happen to round 0, Bma.OneWayEdgeMisleads gives a graph on which the result is wrong); costs are unbounded, and infinity is a value of its own rather than the largest integer.
- The solvers Random, Greedy2 and WheelFreeRamsey, and the OGDF library: simpler members of the same family, and a library that is not part of this model.
- AStar.Solve: the heuristic is a real number, and one of -1 or less at a final state is excluded, because optimality ends there (AStar.NearestExactlyAboveMinusOne); ties in the queue are arbitrary, and the finite state space is a ghost parameter; the memory limit, which makes all three searches return nothing, is not modelled.
- StudentHeuristic.HeuristicIsAdmissible: the rules of the game are not part of this model; what is used of them is its precondition.
- The hash of states: states are equal as the search compares them.
- UtpReassembly.UtpFlow.AddSegment: for recognised packets, as no other leaves the flow right (UtpReassembly.RightExactlyWhenRecognised), with duplicates that carry the payload of the original; the connection's life, extensions and packet fields before it are not modelled.
- BitTorrentFramer.BitTorrentParser.ProcessMessage: what the handlers do with a message, including what they log of unknown ones, is left aside; the frames they are given are recorded, empty ones too.
- TrafficMonitor.EndToEnd: one flow; opening and closing flows and the reports are not modelled.
- The TCP tracer: its filter compares tuples of different lengths and never removes anything, so there is no invariant to state.
- DistanceField.EvaluateFieldAt: real numbers for floats; the square root is any function with the defining property of one.
- OctreeMesh.MarchTree: the number of triangles of a cube is an arbitrary function that is zero when all corners are above the iso level, as the base builder is not part of this model; tasks are run in the order of the code, per-thread stores and their merging are not modelled, and the total is unbounded.
- Mandelbrot calculators, k-means, parallel splitting, the affine cipher, hybrid encryption, the database and scraping code: floating point, library calls or small tables.
