# NEURON core, modelled in Dafny

This project models nine pieces of the NEURON simulator and proves properties
of them:

- the reaction-diffusion geometries of `rxd/geometry.py`: the per-segment
  volumes, surface areas and neighbour areas of `inside`, `membrane`, `Shell`,
  `FractionalVolume` and the constant and border geometries;
- the multisplit bookkeeping of `multisplit.cpp`: registration of split
  roots, the `bb_relation` exchange vectors, `reduced_mark`, and the reduced
  tree's receive and send maps, `gather` and `reorder`;
- the sparse matrix package of `scopmath/sparse.c`: the order list of
  equations, `getelm` finding or linking an element into its row and column
  chains, `check_assert`, `initeqn`, `init_coef_list` and the save and
  restore of the file's globals into a `SparseObj`;
- the Blue Gene DMA spike exchange of `bgpdma.cpp`: the receive buffers, the
  encoding of the buffer index in the gid, sending and receiving, and the
  source and target host tables;
- the MPI helpers of `mpispike.c`: the `pgvts` reduction operator, the
  double all-reduce and the plain, spike-buffer and compressed spike
  exchanges;
- the bulletin-board packing of `ocbbs.cpp`: the `submit` message, its
  argument-type manifest and the `execute_helper` and `return_args` readers,
  plus the serial `alltoall` and `broadcast`;
- the `Matrix` class of `ocmatrix.cpp`: the full and the sparse matrix's
  diagonal, row and column writes, element access and the reuse of a
  factorisation by `solv`;
- the two launchers `mswin/extra/neuron.cpp` and `uxnrnbbs/mos2nrn.cpp`:
  the home directory, the slash conversion, the argument line and the
  command each builds.

Code that changes state step by step is modelled as classes and methods over
arrays and sequences, each method proved against a specification function.
Pure code is modelled as functions with lemmas about them. MPI, DCMF,
Meschach and the operating system are not modelled. Where the model needs
what they return, the value is a parameter. The shared files are
`common.dfy`, with sums over a range and the C cast to int, and `ctext.dfy`,
with C strings.

Where the documented behaviour and the code disagree, the model follows the
code. Where the code itself is at fault (see "## Findings"), the model keeps
a member that behaves as written and shows the fault, and the rest of the
model uses the corrected definition. Two places where the documentation
and the code disagree matter:

- `_make_perimeter_function` (geometry.py:77-88) computes only when its
  argument is not an `nrn.Section`. For a plain section it returns None. Only
  the computing branch is modelled.
- `_always_0` and `ConstantArea`'s volumes return a scalar, not an array.
  The model keeps the scalar.

## Model

| member | source | states |
|---|---|---|
| Geometry.InterpWithin | share/lib/python/neuron/rxd/geometry.py:37 | `numpy.interp` never leaves the range of the given diameters |
| Geometry.Interp | share/lib/python/neuron/rxd/geometry.py:37 | `numpy.interp`: the end diameters outside the arc range, and linear interpolation between the bracketing points inside it |
| Geometry.InterpAtPoint | share/lib/python/neuron/rxd/geometry.py:37 | at a 3D point of a section with strictly increasing arc lengths, the interpolated diameter is that point's diameter |
| Geometry.InterpAll | share/lib/python/neuron/rxd/geometry.py:37 | one interpolated diameter per position |
| Geometry.InterpAllAt | share/lib/python/neuron/rxd/geometry.py:37 | entry k is the interpolation at position k |
| Geometry.Interior | share/lib/python/neuron/rxd/geometry.py:33-35 | the arc positions strictly between lo and hi, in their order |
| Geometry.InteriorSorted | share/lib/python/neuron/rxd/geometry.py:33-35 | filtering keeps sorted arc positions sorted |
| Geometry.Breakpoints | share/lib/python/neuron/rxd/geometry.py:33-35 | a segment's points start at lo, end at hi, and hold the interior points between |
| Geometry.BreakpointsCoverInterior | share/lib/python/neuron/rxd/geometry.py:33-35 | every 3D point strictly inside a segment is one of its breakpoints, as often as it occurs |
| Geometry.BoundaryPointNotDuplicated | share/lib/python/neuron/rxd/geometry.py:33-35 | a 3D point exactly on a segment boundary is an interior point of neither neighbouring segment |
| Geometry.SegmentsTile | share/lib/python/neuron/rxd/geometry.py:30-34 | adjacent segments share their boundary, and the segments tile [0, L] |
| Geometry.BreakpointsSorted | share/lib/python/neuron/rxd/geometry.py:33-35 | with sorted 3D points, each segment's breakpoints ascend |
| Geometry.PerSegment | share/lib/python/neuron/rxd/geometry.py:29-47 | one accumulated value per segment, each the sum of the pieces of that segment's breakpoint pairs |
| Geometry.SumPieces | share/lib/python/neuron/rxd/geometry.py:40-45 | the inner loop returns the sum of the pieces of consecutive breakpoint pairs |
| Geometry.Accumulate1d | share/lib/python/neuron/rxd/geometry.py:22-47 | the segment loop fills a fresh array of nseg entries, entry i being segment i's total |
| Geometry.ZeroLengthVolume | share/lib/python/neuron/rxd/geometry.py:44 | a zero-length pair adds no volume |
| Geometry.FrustumVolume | share/lib/python/neuron/rxd/geometry.py:44 | the volume pi/12 (d0^2 + d0 d1 + d1^2) times the length of a frustum between two 3D points |
| Geometry.CylinderVolume | share/lib/python/neuron/rxd/geometry.py:44 | equal diameters give the cylinder volume pi d^2/4 times the length |
| Geometry.FrustumSplit | share/lib/python/neuron/rxd/geometry.py:44 | splitting a frustum at a point of its linear diameter profile keeps its volume |
| Geometry.ZeroLengthArea | share/lib/python/neuron/rxd/geometry.py:72 | a zero-length pair with one diameter adds no area |
| Geometry.CylinderArea | share/lib/python/neuron/rxd/geometry.py:72 | equal diameters give the lateral area scale times d times the length |
| Geometry.ShellPiece | share/lib/python/neuron/rxd/geometry.py:306 | a shell piece is the inside piece scaled by hi^2 - lo^2 |
| Geometry.ShellPrefixSum | share/lib/python/neuron/rxd/geometry.py:300-306 | a running sum of shell pieces is the inside running sum scaled by hi^2 - lo^2 |
| Geometry.ShellSegment | share/lib/python/neuron/rxd/geometry.py:292-307 | a segment's shell volume is its inside volume scaled by hi^2 - lo^2 |
| Geometry.ShellPerSegment | share/lib/python/neuron/rxd/geometry.py:283-309 | every segment's shell volume is hi^2 - lo^2 times its inside volume |
| Geometry.BoundaryPositions | share/lib/python/neuron/rxd/geometry.py:100 | nseg + 1 evenly spaced positions from 0 to L |
| Geometry.BoundaryDiams | share/lib/python/neuron/rxd/geometry.py:101 | the interpolated diameter at each boundary position |
| Geometry.NeighborAreas | share/lib/python/neuron/rxd/geometry.py:93-102 | pi/4 d^2 at each of the nseg + 1 boundaries |
| Geometry.ShellNeighborAreas | share/lib/python/neuron/rxd/geometry.py:268-278 | pi/4 ((hi d)^2 - (lo d)^2) at each boundary |
| Geometry.Perimeters | share/lib/python/neuron/rxd/geometry.py:77-88 | scale times d at each boundary |
| Geometry.ShellNeighborScaled | share/lib/python/neuron/rxd/geometry.py:278 | shell neighbour areas are the inside ones scaled by hi^2 - lo^2 |
| Geometry.AnnulusArea | share/lib/python/neuron/rxd/geometry.py:278 | the annulus area between radii lo d/2 and hi d/2 is (hi^2 - lo^2) pi d^2/4 |
| Geometry.ScaleAll | share/lib/python/neuron/rxd/geometry.py:117-118 | `scale_by_constant` multiplies every entry by the scale |
| Geometry.ScaleAllOne | share/lib/python/neuron/rxd/geometry.py:117-118 | scaling by 1 changes nothing |
| Geometry.Call | share/lib/python/neuron/rxd/geometry.py:17-19 | calling a geometry gives back the same geometry |
| Geometry.Volumes1d | share/lib/python/neuron/rxd/geometry.py:7-8 | `volumes1d` of a section: the geometry's volume function applied to it, or the base class's error |
| Geometry.SurfaceAreas1d | share/lib/python/neuron/rxd/geometry.py:9-10 | `surface_areas1d` of a section: the geometry's surface function applied to it, or the base class's error |
| Geometry.NeighborAreas1d | share/lib/python/neuron/rxd/geometry.py:11-12 | `neighbor_areas1d` of a section: the geometry's neighbour-area function applied to it, or the base class's error |
| Geometry.IsVolume | share/lib/python/neuron/rxd/geometry.py:13-14 | `is_volume`: the geometry's flag, or the error of the base class |
| Geometry.IsArea | share/lib/python/neuron/rxd/geometry.py:15-16 | `is_area`: the geometry's flag, or the error of the base class |
| Geometry.Shell | share/lib/python/neuron/rxd/geometry.py:246-263 | the constructor raises for a missing bound, zero thickness or bounds on both sides of 1, orders the bounds, and has the membrane surface exactly when a bound is 1 |
| Geometry.ShellSymmetric | share/lib/python/neuron/rxd/geometry.py:250 | the bounds may be given in either order |
| Geometry.Classification | share/lib/python/neuron/rxd/geometry.py:13-16 | (is_volume, is_area) when both are defined |
| Geometry.ClassificationOfVariants | share/lib/python/neuron/rxd/geometry.py:120-281 | volume geometries answer (True, False) and area geometries (False, True) |
| Geometry.BaseRaises | share/lib/python/neuron/rxd/geometry.py:6-19 | every query of the base class raises, and calling it returns it |
| Geometry.InsideMembraneDefined | share/lib/python/neuron/rxd/geometry.py:124-139 | every query of inside and membrane succeeds |
| Geometry.QueryLengths | share/lib/python/neuron/rxd/geometry.py:29-31 | volumes1d gives nseg values and neighbor_areas1d gives nseg + 1, for inside and every valid shell |
| Geometry.ShellScalesInside | share/lib/python/neuron/rxd/geometry.py:268-309 | a shell's volumes and neighbour areas are hi^2 - lo^2 times inside's, a shell reaching the membrane has the full inside surface, and any other shell has surface 0 |
| Geometry.ShellZeroOneIsInside | share/lib/python/neuron/rxd/geometry.py:245-309 | Shell(0, 1) has inside's volumes, surface areas, neighbour areas and classification |
| Geometry.ShellAdditive | share/lib/python/neuron/rxd/geometry.py:300-306 | Shell(a, b) plus Shell(b, c) is Shell(a, c), segment by segment and boundary by boundary |
| Geometry.FractionalVolumeScales | share/lib/python/neuron/rxd/geometry.py:148-165 | FractionalVolume scales inside's quantities by its three fractions |
| Geometry.FractionalVolume | share/lib/python/neuron/rxd/geometry.py:148-165 | a volume geometry: inside's volumes, surface and neighbour areas scaled by the three fractions, no surface for fraction 0, the neighbour fraction defaulting to the volume fraction |
| Geometry.DefaultFractionalVolume | share/lib/python/neuron/rxd/geometry.py:149-160 | the default FractionalVolume has inside's volumes and neighbour areas and no surface |
| Geometry.SumConstant | share/lib/python/neuron/rxd/geometry.py:104-105 | n copies of a value add up to n times it |
| Geometry.PerLengthTotals | share/lib/python/neuron/rxd/geometry.py:104-111 | a per-length constant gives nseg copies of v L/nseg totalling v L; the plus-one constants give nseg + 1 copies |
| Geometry.ConstantVariants | share/lib/python/neuron/rxd/geometry.py:171-209 | ConstantVolume, FixedCrossSection and FixedPerimeter give their per-section totals and end constants |
| Geometry.ConstantVolume | share/lib/python/neuron/rxd/geometry.py:171-179 | a volume geometry: volume and surface per unit length, and the neighbour area at each of the nseg + 1 boundaries |
| Geometry.FixedCrossSection | share/lib/python/neuron/rxd/geometry.py:184-192 | a volume geometry: volume cross_area and surface per unit length, and neighbour area cross_area at each boundary |
| Geometry.FixedPerimeter | share/lib/python/neuron/rxd/geometry.py:197-206 | an area geometry: area perimeter per unit length, the same as surface only on the cell surface (0 elsewhere), and neighbour area perimeter at each boundary |
| Geometry.BorderVariants | share/lib/python/neuron/rxd/geometry.py:211-241 | ScalableBorder and ConstantArea have their volume function as surface on the cell surface, and 0 elsewhere |
| Geometry.ScalableBorder | share/lib/python/neuron/rxd/geometry.py:211-226 | an area geometry: the lateral area scaled by scale, the same as surface only on the cell surface (0 elsewhere), and neighbour perimeter scale times the diameter at each boundary |
| Geometry.ConstantArea | share/lib/python/neuron/rxd/geometry.py:231-241 | an area geometry: the scalar area, the same as surface only on the cell surface (0 elsewhere), and neighbour area perim at each boundary |
| Geometry.MembraneIsScalableBorderPi | share/lib/python/neuron/rxd/geometry.py:133-139 | membrane and ScalableBorder(pi) agree on volumes and neighbour areas |
| MultiSplit.RegisterValid | src/nrniv/multisplit.cpp:346-373 | registration keeps the root table and the record list in one-to-one correspondence |
| MultiSplit.Register | src/nrniv/multisplit.cpp:346-373 | `nrnmpi_multisplit`'s bookkeeping on the root table and the record list |
| MultiSplit.FirstRegistration | src/nrniv/multisplit.cpp:362-373 | a root's first registration appends a fresh single-sid record |
| MultiSplit.SecondRegistration | src/nrniv/multisplit.cpp:347-361 | every later registration fills, or overwrites, the record's second node and sid, and style 1 sets its style; the only errors are style 2 asked of a record that is not style 2, and a sid equal to the record's first sid |
| MultiSplit.Registrar.Multisplit | src/nrniv/multisplit.cpp:318-380 | `nrnmpi_multisplit` registers the root or reports the error, keeping the table and list consistent |
| MultiSplit.RecordRelations | src/nrniv/multisplit.cpp:559-580 | a record's `bb_relation` entries: a two-sid style-2 record names each sid as the other's partner |
| MultiSplit.RecordRelationsDecode | src/nrniv/multisplit.cpp:559-580 | decoding a record's relations gives back its partners and style |
| MultiSplit.SidsAppend | src/nrniv/multisplit.cpp:559-580 | the sid vector of a list grows by one record's sids |
| MultiSplit.Sids | src/nrniv/multisplit.cpp:559-580 | the sid vector of the record list |
| MultiSplit.Relations | src/nrniv/multisplit.cpp:559-580 | the `bb_relation` vector of the record list |
| MultiSplit.Partner | src/nrniv/multisplit.cpp:1518-1519 | the partner sid a `bb_relation` value names: value - 3 above 2, none otherwise |
| MultiSplit.ExchangeVectors | src/nrniv/multisplit.cpp:559-580 | the loop builds the sid and `bb_relation` vectors of all records, in list order |
| MultiSplit.PutRecord | src/nrniv/multisplit.cpp:559-580 | one iteration appends one record's entries |
| MultiSplit.ReducedMark | src/nrniv/multisplit.cpp:1512-1524 | `reduced_mark` sets to m exactly the entries that were unmarked and whose sid it visits; the visited sids start at sid, each later one is the partner named by an unmarked entry of an earlier one, and they hold every such partner, so they are the partner closure of sid; other marks stay |
| MultiSplit.DerivationLeast | src/nrniv/multisplit.cpp:1512-1524 | a chain of partners from sid stays inside every partner-closed set holding sid, so the sids `reduced_mark` visits form the least such set |
| MultiSplit.DerivationAppend | src/nrniv/multisplit.cpp:1512-1524 | the chain of a partner, visited after more entries are marked, extends the chain from sid |
| MultiSplit.UnmarkedMonotone | src/nrniv/multisplit.cpp:1512-1524 | marking never unmarks, so the unmarked count falls and the recursion ends |
| MultiSplit.RmapSlot | src/nrniv/multisplit.cpp:2543-2569 | the buffer cell of a (sid1, sid2) piece: RHS, D, A or B block of the rank it belongs to |
| MultiSplit.RmapSlotDecode | src/nrniv/multisplit.cpp:2543-2569 | slot / n names the block and slot % n the rank |
| MultiSplit.ReducedTree.constructor | src/nrniv/multisplit.cpp:2270-2306 | the reduced tree starts with n ranks, a 4n buffer, and send and receive maps of the given size, all empty |
| MultiSplit.ReducedTree.FillRmap | src/nrniv/multisplit.cpp:2543-2569 | `fillrmap` appends one receive entry into the slot RmapSlot names |
| MultiSplit.ReducedTree.FillSmap | src/nrniv/multisplit.cpp:2571-2580 | `fillsmap` appends the RHS and diagonal send entries of the sid's rank |
| MultiSplit.ReducedTree.UpdateRmapIndex | src/nrniv/multisplit.cpp:2582-2585 | `update_rmap(i, ir)` remembers the offset of the next receive entry of kind i |
| MultiSplit.ReducedTree.UpdateRmap | src/nrniv/multisplit.cpp:2587-2590 | `update_rmap(a, b)` repoints the two remembered entries into new storage |
| MultiSplit.ReducedTree.Gather | src/nrniv/multisplit.cpp:2397-2406 | `gather` clears the 4n buffer and adds each mapped value into its cell |
| MultiSplit.GatherConserves | src/nrniv/multisplit.cpp:2397-2406 | the buffer's cells add up to the sum of everything mapped into it |
| MultiSplit.ReducedTree.Reorder | src/nrniv/multisplit.cpp:2464-2541 | `reorder` fails unless the pieces of tree j with a larger partner sid give n - 1 edges whose sids all have ranks; on success it numbers the ranks by a permutation starting at the root 0, each number but the root's has a smaller parent number joined to it by one of those edges, and each sid is relabelled by its rank's new number |
| MultiSplit.ReducedTree.CollectEdges | src/nrniv/multisplit.cpp:2479-2492 | Ok exactly when the tree-edge pieces give n - 1 edges whose sids all have ranks; then edge k holds the ranks of the k-th such piece's sid and partner, and every rank's sid is recorded |
| MultiSplit.TreeEdgesExact | src/nrniv/multisplit.cpp:2481-2483 | the scanned edges are exactly the (sid, partner sid) pairs of the pieces of tree j whose partner sid is the larger |
| MultiSplit.TreeEdgesPrefix | src/nrniv/multisplit.cpp:2481-2492 | the edges of a shorter scan are a prefix of those of a longer one |
| MultiSplit.ReducedTree.RecordEdge | src/nrniv/multisplit.cpp:2486-2490 | edge ie becomes the ranks of the two sids, Ok exactly when both have ranks; recorded sids stay recorded |
| MultiSplit.ReducedTree.OrderRanks | src/nrniv/multisplit.cpp:2496-2519 | on success, a permutation numbering rank 0 first, each number but 0 having a smaller parent number joined to it by one of the given edges |
| MultiSplit.ReducedTree.TakeEdge | src/nrniv/multisplit.cpp:2496-2519 | a handled edge or one with no numbered end changes nothing; one with both ends numbered is an error; otherwise its unnumbered end gets the next number, the other end's number becomes its parent, and the edge is cleared |
| MultiSplit.ReducedTree.NumberEnd | src/nrniv/multisplit.cpp:2503-2516 | the unnumbered end of edge i gets the next number with the other end's number as parent, the edge is cleared, and every numbered rank stays joined to its parent by an edge |
| MultiSplit.LinkedExtend | src/nrniv/multisplit.cpp:2496-2519 | numbering one more rank through an edge to an earlier number keeps every numbered rank joined to its parent by an edge |
| MultiSplit.ReducedTree.SetParent | src/nrniv/multisplit.cpp:2496-2519 | `ip[ordered]` becomes the parent's number and the other entries stay |
| MultiSplit.ReducedTree.NumberRank | src/nrniv/multisplit.cpp:2496-2519 | `order[to] = ordered++`: rank to gets the next number, appended to the inverse numbering, and the other ranks keep theirs |
| MultiSplit.ReducedTree.HandleEdge | src/nrniv/multisplit.cpp:2496-2519 | a handled edge is cleared to -1 at both ends and the other edges stay |
| MultiSplit.ReducedTree.Relabel | src/nrniv/multisplit.cpp:2522-2524 | each sid takes its rank's new number |
| Sparse.Inc32 | src/scopmath/sparse.c:618 | `norder++` on an unsigned counter wraps at 2^32 |
| Sparse.Dec32 | src/scopmath/sparse.c:629 | `norder--` on an unsigned counter wraps below 0 |
| Sparse.OrderList.constructor | src/scopmath/sparse.c:725-732 | `newlist`: the sentinel alone, linked to itself |
| Sparse.OrderList.NewItem | src/scopmath/sparse.c:713-722 | `newitem`: a fresh unlinked item of order 0 |
| Sparse.OrderList.LinkItem | src/scopmath/sparse.c:745-753 | `linkitem` links an unlinked item just before a listed one, keeping every other link |
| Sparse.OrderList.Insert | src/scopmath/sparse.c:756-767 | `insert` puts the item before the first item of equal or larger order, keeping the list sorted |
| Sparse.OrderList.Delete | src/scopmath/sparse.c:769-777 | `delete` unlinks the item and clears its links; the others keep their order |
| Sparse.OrderList.Reorder | src/scopmath/sparse.c:611-631 | the item is unlinked, its order stepped by one, and inserted at its sorted place |
| Sparse.OrderList.FreeList | src/scopmath/sparse.c:734-743 | `freelist` releases every item in list order, then the sentinel |
| Sparse.SortedSplice | src/scopmath/sparse.c:756-767 | splicing an item after every smaller one keeps the orders sorted |
| Sparse.WithoutSplice | src/scopmath/sparse.c:745-777 | inserting or deleting an item leaves the other items in their relative order |
| Sparse.LinkAfter | src/scopmath/sparse.c:458-463 | the four writes link a new element just after a chain member |
| Sparse.LinkBefore | src/scopmath/sparse.c:474-481 | the four writes link a new element just before a chain member |
| Sparse.IncreasingSplice | src/scopmath/sparse.c:440-521 | linking between neighbours whose keys bracket the new key keeps the chain increasing |
| SparseMatrix.SearchDown | src/scopmath/sparse.c:442-451 | down the column from the diagonal: the element of the row, or the last element above its place |
| SparseMatrix.SearchUp | src/scopmath/sparse.c:484-493 | up the column: the element of the row, or the first element below its place |
| SparseMatrix.SearchLeft | src/scopmath/sparse.c:465-472 | left along the row over the elements whose variable comes after the column |
| SparseMatrix.SearchRight | src/scopmath/sparse.c:507-514 | right along the row over the elements whose variable comes before the column |
| SparseMatrix.Alloc | src/scopmath/sparse.c:453-457 | a new element of value 0, or the caller's, with its row and column set |
| SparseMatrix.LinkBelow | src/scopmath/sparse.c:458-463 | the new element goes into its column just below the stop element |
| SparseMatrix.LinkAbove | src/scopmath/sparse.c:500-505 | the new element goes into its column just above the stop element |
| SparseMatrix.LinkLeft | src/scopmath/sparse.c:474-481 | the new element goes into its row just left of the stop element |
| SparseMatrix.LinkRight | src/scopmath/sparse.c:516-521 | the new element goes into its row just right of the stop element |
| SparseMatrix.ColumnBelow | src/scopmath/sparse.c:452-463 | the column half of a lower-triangle insertion keeps the matrix well formed except for the new element's row |
| SparseMatrix.ColumnAbove | src/scopmath/sparse.c:494-505 | the column half of an upper-triangle insertion, likewise |
| SparseMatrix.RowLeft | src/scopmath/sparse.c:464-481 | the row half of a lower-triangle insertion makes the matrix whole again |
| SparseMatrix.RowRight | src/scopmath/sparse.c:506-521 | the row half of an upper-triangle insertion, likewise |
| SparseMatrix.InsertLower | src/scopmath/sparse.c:452-481 | below the diagonal, a missing element is linked into its column and its row |
| SparseMatrix.InsertUpper | src/scopmath/sparse.c:494-521 | above the diagonal, likewise |
| SparseMatrix.FindLower | src/scopmath/sparse.c:440-481 | below the diagonal, `getelm` returns the existing element or links a new one in place |
| SparseMatrix.FindUpper | src/scopmath/sparse.c:482-521 | above the diagonal, likewise |
| SparseMatrix.DiagHolds | src/scopmath/sparse.c:437-439 | the diagonal is returned when row and column map to the same position |
| SparseMatrix.FindOrLink | src/scopmath/sparse.c:426-526 | `getelm` returns the (row, col) element, which after the call is on its row and column; it is new only when it was absent, and the invariants hold |
| SparseMatrix.VarordInjective | src/scopmath/sparse.c:426-526 | distinct equations have distinct positions, so the element found is unique |
| SparseMatrix.CheckRow | src/scopmath/sparse.c:809-816 | the row walk of `check_assert` finds every link consistent |
| SparseMatrix.CheckDown | src/scopmath/sparse.c:817-820 | the downward column walk finds consistent links and increasing rows |
| SparseMatrix.CheckUp | src/scopmath/sparse.c:821-824 | the upward column walk finds consistent links and decreasing rows |
| SparseMatrix.CheckDiag | src/scopmath/sparse.c:805-808 | the diagonal checks of one position pass |
| SparseMatrix.CheckAssert | src/scopmath/sparse.c:799-826 | on a well-formed matrix no assertion of `check_assert` fails |
| SparseMatrix.FreshMatrix | src/scopmath/sparse.c:369-400 | the matrix `initeqn` builds: each row and column holds its value-0 diagonal alone and varord is the identity |
| SparseMatrix.FreshOk | src/scopmath/sparse.c:369-400 | the fresh matrix is well formed |
| SparseMatrix.DiagonalRun | src/scopmath/sparse.c:387-398 | the loop makes one diagonal element per row and clears rhs |
| SparseMatrix.ZeroValues | src/scopmath/sparse.c:567-571 | every element on the rows gets value 0 and every other value is kept |
| SparseMatrix.ValuesKeepOk | src/scopmath/sparse.c:562-572 | changing only values keeps the matrix well formed |
| SparseSolver.EmptyOk | src/scopmath/sparse.c:369-400 | the matrix before any `initeqn` is well formed |
| SparseSolver.SparseObj.constructor | src/scopmath/sparse.c:884-903 | `create_sparseobj`: every field zero or null |
| SparseSolver.Solver.IncreaseOrder | src/scopmath/sparse.c:611-620 | nothing without `do_flag`; otherwise the row's order grows by one and its item moves to its sorted place |
| SparseSolver.Solver.constructor | src/scopmath/sparse.c:125-142 | the file's globals start zero or null, an empty matrix that satisfies the `check_assert` invariants |
| SparseSolver.Solver.ReduceOrder | src/scopmath/sparse.c:622-631 | as IncreaseOrder, with the order reduced by one |
| SparseSolver.Solver.GetElm | src/scopmath/sparse.c:426-526 | `getelm` through the globals: the element found, with nothing changed, or a new one linked into its row and column; a new element made without a reuse pointer while `do_flag` is set steps its row's order by one (modulo 2^32) and moves the row's item to its sorted place, and in every other case the order list is unchanged |
| SparseSolver.Solver.GetElmPointer | src/scopmath/sparse.c:528-541 | `_getelm`: phase 0 replays the recorded pointers, phase 1 counts calls, phase 2 records them |
| SparseSolver.Solver.InitEqn | src/scopmath/sparse.c:369-400 | nothing when the size is unchanged; otherwise the old elements go and a fresh diagonal matrix of the new size is built |
| SparseSolver.Solver.InitCoefList | src/scopmath/sparse.c:562-572 | the call counter restarts and every element gets value 0 |
| SparseSolver.Solver.Local2SparseObj | src/scopmath/sparse.c:921-935 | the eleven globals are copied into the SparseObj |
| SparseSolver.Solver.SparseObj2Local | src/scopmath/sparse.c:905-919 | the eleven globals are copied back from the SparseObj |
| SparseSolver.Solver.SaveRestore | src/scopmath/sparse.c:905-935 | saving then restoring gives back every global and keeps the invariants |
| Bgpdma.ReceiveBuffer.constructor | src/nrniv/bgpdma.cpp:97-108 | the buffer starts empty with its initial capacity |
| Bgpdma.ReceiveBuffer.Init | src/nrniv/bgpdma.cpp:118-125 | `init` empties the buffer and zeroes the counters, keeping the capacity |
| Bgpdma.ReceiveBuffer.Grow | src/nrniv/bgpdma.cpp:126-152 | the capacity doubles and the held spikes are kept |
| Bgpdma.ReceiveBuffer.Incoming | src/nrniv/bgpdma.cpp:126-152 | `incoming` appends the spike after those held, growing a full buffer first |
| Bgpdma.ReceiveBuffer.Enqueue | src/nrniv/bgpdma.cpp:153-170 | every buffered spike goes to its presynaptic object in arrival order, then the buffer is cleared |
| Bgpdma.Deliveries | src/nrniv/bgpdma.cpp:158-164 | one delivery per buffered spike, in arrival order, each to its gid's presynaptic object with its spike time |
| Bgpdma.ReceiveBuffer.Enqueue1 | src/nrniv/bgpdma.cpp:172-185 | `enqueue1` looks up each spike's object, in arrival order |
| Bgpdma.ReceiveBuffer.Enqueue2 | src/nrniv/bgpdma.cpp:187-203 | `enqueue2` delivers each spike to the object found for it, then clears the buffer |
| Bgpdma.ReceiveBuffer.EnqueueInTwoSteps | src/nrniv/bgpdma.cpp:172-203 | the two-step path delivers the same spikes to the same objects as `enqueue` |
| Bgpdma.DecodeGid | src/nrniv/bgpdma.cpp:272-279 | a negative wire gid names buffer 1 and carries the complemented gid; others name buffer 0 |
| Bgpdma.EncodeGid | src/nrniv/bgpdma.cpp:428-433 | the sender complements the gid for receive buffer 1 and sends it unchanged for buffer 0 |
| Bgpdma.GidRoundTrip | src/nrniv/bgpdma.cpp:428-433 | decoding undoes the sender's encoding for every gid >= 0 and both buffers |
| Bgpdma.Routed | src/nrniv/bgpdma.cpp:398-404 | the spikes routed to one buffer, decoded, in arrival order |
| Bgpdma.RoutedStep | src/nrniv/bgpdma.cpp:391-408 | one more polled spike extends the routing by that spike |
| Bgpdma.Exchange.constructor | src/nrniv/bgpdma.cpp:603-611 | `bgp_dma_setup` allocates one receive buffer per interval |
| Bgpdma.Exchange.DmaInit | src/nrniv/bgpdma.cpp:371-390 | every buffer is initialised; buffer 0 is drained next and new spikes go to the last |
| Bgpdma.Exchange.MsendRecv | src/nrniv/bgpdma.cpp:251-283 | the spike goes to the buffer its wire gid names and the receive counter grows |
| Bgpdma.Exchange.Route | src/nrniv/bgpdma.cpp:272-279 | the wire gid is decoded and the spike appended to the buffer it names, whose receive counter grows; everything else stays |
| Bgpdma.Exchange.BgpAdvance | src/nrniv/bgpdma.cpp:391-408 | every polled spike is routed in order and their number is returned |
| Bgpdma.Exchange.Send | src/nrniv/bgpdma.cpp:424-494 | with target hosts, the spike is multicast with its gid encoded for the next buffer, whose expected count grows; `send2self_` delivers locally; `isend` steps modulo NSEND |
| Bgpdma.Exchange.Receive | src/nrniv/bgpdma.cpp:504-560 | the drained buffer is enqueued and cleared and, with two intervals, the buffers swap roles |
| BgpdmaHosts.ChooseBufSize | src/nrniv/bgpdma.cpp:728-742 | the total and the largest per-host count; the buffer holds every host's count and at most the total, and below the total it is at least 10000, the host count and the largest count |
| BgpdmaHosts.GatherSrcGid | src/nrniv/bgpdma.cpp:774-807 | one chunk: hosts before and after it send nothing and the hosts taken fit in the buffer |
| BgpdmaHosts.TakeGreedy | src/nrniv/bgpdma.cpp:774-807 | hosts are taken while their gids still fit, with running displacements |
| BgpdmaHosts.ClearBefore | src/nrniv/bgpdma.cpp:774-807 | hosts before the chunk send nothing |
| BgpdmaHosts.ClearAfter | src/nrniv/bgpdma.cpp:774-807 | hosts after the chunk send nothing and the total stays |
| BgpdmaHosts.SourceHostChunks | src/nrniv/bgpdma.cpp:747-760 | the chunks cover every host once, in order, each within the buffer |
| BgpdmaHosts.CountSources | src/nrniv/bgpdma.cpp:816-827 | how many targets each host feeds, and how many are fed at all |
| BgpdmaHosts.PrefixSums | src/nrniv/bgpdma.cpp:828-832 | entry i of the displacement table is the sum of the first i counts |
| BgpdmaHosts.PlaceTargets | src/nrniv/bgpdma.cpp:840-852 | block h of the table lists, in order, the gids host h feeds |
| BgpdmaHosts.TargidOnTar | src/nrniv/bgpdma.cpp:810-852 | counting, layout and placing together give one block per host with exactly its gids |
| BgpdmaHosts.CountTargetHosts | src/nrniv/bgpdma.cpp:869-873 | each slot adds one to its source's target-host count |
| BgpdmaHosts.AllocateTargetHosts | src/nrniv/bgpdma.cpp:874-883 | each source gets a buffer of its count, and the largest count is recorded |
| BgpdmaHosts.FillTargetHosts | src/nrniv/bgpdma.cpp:884-895 | each source lists the other hosts that need it, in host order, and `send2self_` says whether this host does |
| BgpdmaHosts.HostListLength | src/nrniv/bgpdma.cpp:884-895 | a source's list is as long as its count without this host's block |
| BgpdmaHosts.DetermineTargetHosts | src/nrniv/bgpdma.cpp:856-895 | every source learns exactly the hosts it must send to |
| MpiSpike.Combine | src/nrnmpi/mpispike.c:313-325 | `pgvts_op` keeps the tuple with the smaller time, then the smaller rank, keeping `inout` on a tie |
| MpiSpike.Precedes | src/nrnmpi/mpispike.c:317-324 | the order `pgvts_op` tests: an earlier time, or the same time and a smaller rank |
| MpiSpike.CombineCommutes | src/nrnmpi/mpispike.c:63 | with different ranks the operator commutes, as its registration declares |
| MpiSpike.CombineTieKeepsInout | src/nrnmpi/mpispike.c:313-325 | with the same time and rank the operator keeps `inout` |
| MpiSpike.CombineAssociates | src/nrnmpi/mpispike.c:313-325 | the operator is associative |
| MpiSpike.PgvtsOp | src/nrnmpi/mpispike.c:313-325 | the length assertion fails unless len is 4; `inout` is overwritten exactly when `in` precedes it |
| MpiSpike.CopyBuf | src/nrnmpi/mpispike.c:320 | the four entries are copied |
| MpiSpike.Reduce | src/nrnmpi/mpispike.c:327-340 | the reduction gives one of the buffers, which no buffer precedes |
| MpiSpike.ReduceOrderFree | src/nrnmpi/mpispike.c:327-340 | any order of combining gives the same tuple |
| MpiSpike.PgvtsLeast | src/nrnmpi/mpispike.c:327-340 | 1 exactly on the rank whose tuple nothing precedes, with the least time, op and init |
| MpiSpike.OneLeastRank | src/nrnmpi/mpispike.c:327-340 | exactly one rank is told it holds the least tuple |
| MpiSpike.SomeLeastRank | src/nrnmpi/mpispike.c:327-340 | some rank is told it holds the least tuple |
| MpiSpike.OpFor | src/nrnmpi/mpispike.c:366-379 | type 1 is a sum, 2 a maximum, anything else a minimum |
| MpiSpike.Fold | src/nrnmpi/mpispike.c:366-379 | the all-reduce with an operator over every rank's value |
| MpiSpike.DblAllreduce | src/nrnmpi/mpispike.c:366-379 | one process gets x back; otherwise the sum, maximum or minimum of all values |
| MpiSpike.Grown | src/nrnmpi/mpispike.c:122-126 | the capacity becomes need + 10 when it does not hold the need |
| MpiSpike.GrownOnlyWhenShort | src/nrnmpi/mpispike.c:122-126 | growth happens only when the old capacity is too small, and then it holds the need |
| MpiSpike.SpikesSplit | src/nrnmpi/mpispike.c:129-160 | every spike travels in a fixed buffer or in the overflow, so the total counts both |
| MpiSpike.ReceiveBlockInside | src/nrnmpi/mpispike.c:114-127 | receive blocks laid out by prefix sums lie one after another inside the total |
| MpiSpike.DecodeCount | src/nrnmpi/mpispike.c:197-199 | the two-byte count is buf[0] * 256 + buf[1] |
| MpiSpike.CountRoundTrip | src/nrnmpi/mpispike.c:197-199 | the count header round-trips for every count below 65536 |
| MpiSpike.HeaderAt | src/nrnmpi/mpispike.c:195-211 | rank i's count is read from bytes i*size and i*size + 1 |
| MpiSpike.OvflBytesExact | src/nrnmpi/mpispike.c:203-207 | under the fixed layout, a rank's overflow bytes are its excess spikes times the pair size |
| MpiSpike.OvflTotal | src/nrnmpi/mpispike.c:195-211 | all overflow bytes together are the excess spike count times the pair size |
| MpiSpike.SpikeExchange.AllocateDispls | src/nrnmpi/mpispike.c:105-112 | `displs` is allocated once, with entry 0 set to 0 |
| MpiSpike.SpikeExchange.Exchange | src/nrnmpi/mpispike.c:114-127 | `nin_` receives the counts, `displs[i]` is the sum of the counts before i, the total is returned and the receive buffer holds it |
| MpiSpike.SpikeExchange.constructor | src/nrnmpi/mpispike.c:13-35 | the file's state before the first exchange: a count slot per rank, no displacement or byte-overflow arrays, and zero capacities |
| MpiSpike.SpikeExchange.ExchangeSpikebuf | src/nrnmpi/mpispike.c:129-160 | `nin_[i]` is rank i's overflow, `displs[i]` the overflow before it, and the total of all spikes is returned |
| MpiSpike.Overflow | src/nrnmpi/mpispike.c:133-146 | a rank's spikes beyond `nrn_spikebuf_size`, 0 when they fit |
| MpiSpike.SpikeExchange.SpikebufScan | src/nrnmpi/mpispike.c:131-149 | the rank loop computes the overflow prefix sums |
| MpiSpike.SpikeExchange.SpikebufRank | src/nrnmpi/mpispike.c:140-148 | one rank's overflow and displacement |
| MpiSpike.SpikeExchange.CompressedScan | src/nrnmpi/mpispike.c:195-211 | the rank loop decodes each count and computes the overflow bytes and their prefix sums |
| MpiSpike.SpikeExchange.CompressedRank | src/nrnmpi/mpispike.c:196-210 | one rank's count, overflow bytes and displacement |
| MpiSpike.SpikeExchange.AllocateCompressedAsWritten | src/nrnmpi/mpispike.c:184-189 | `byteovfl` is allocated only together with `displs` |
| MpiSpike.SpikeExchange.AllocateCompressed | src/nrnmpi/mpispike.c:184-189 | each of the two arrays is allocated when it is missing |
| MpiSpike.SpikeExchange.ExchangeCompressed | src/nrnmpi/mpispike.c:182-229 | counts, overflow bytes, displacements and the total, with the overflow capacity grown when short |
| MpiSpike.ByteOvfl | src/nrnmpi/mpispike.c:203-210 | the bytes of a rank's spikes beyond its fixed buffer: 2 + n (1 + localgid_size) - ag_send_size when n exceeds ag_send_nspike, else 0 |
| MpiSpike.SwitchToCompressedAsWritten | src/nrnmpi/mpispike.c:103-189 | after a plain exchange, the compressed exchange finds `byteovfl` still null |
| MpiSpike.SwitchToCompressed | src/nrnmpi/mpispike.c:103-189 | with the intended allocation both arrays exist |
| MpiSpike.CompressedOverflowFits | src/nrnmpi/mpispike.c:212-218 | after an overflowing exchange the receive buffer holds every overflow byte |
| OcBbs.Kind | src/parallel/ocbbs.cpp:150-162 | each argument's type code is 1 to 4 |
| OcBbs.Encode | src/parallel/ocbbs.cpp:150-162 | the base-5 number whose digits, least significant first, are the argument types |
| OcBbs.EncodeBounds | src/parallel/ocbbs.cpp:150-162 | the manifest of n arguments lies in [0, 5^n), and is positive when there are any |
| OcBbs.EncodeFitsInt | src/parallel/ocbbs.cpp:150-162 | up to 13 arguments the manifest fits a 32-bit int |
| OcBbs.ArgTypes | src/parallel/ocbbs.cpp:150-162 | the loop computes the base-5 manifest, first argument least significant |
| OcBbs.CRem | src/parallel/ocbbs.cpp:993-1020 | C's `%`: the remainder has the sign of the dividend |
| OcBbs.CQuot | src/parallel/ocbbs.cpp:993-1020 | C's `/`: quotient and remainder rebuild the dividend |
| OcBbs.Digits | src/parallel/ocbbs.cpp:994 | the nonzero base-5 digits the decode loop visits, with C's `%` and `/`, stopping at the first zero digit |
| OcBbs.DecodeArgTypes | src/parallel/ocbbs.cpp:993-1020 | the decode loop gives the base-5 digits and their number |
| OcBbs.DigitsEncode | src/parallel/ocbbs.cpp:150-162 | decoding a manifest gives back the argument types |
| OcBbs.PackArgsSnoc | src/parallel/ocbbs.cpp:241-263 | packing one more argument appends its fields |
| OcBbs.ArgRoundTrip | src/parallel/ocbbs.cpp:993-1020 | unpacking a packed argument by its type gives it back and leaves the rest |
| OcBbs.ArgsRoundTrip | src/parallel/ocbbs.cpp:993-1020 | unpacking packed arguments by their types gives them back |
| OcBbs.ManifestRoundTrip | src/parallel/ocbbs.cpp:150-162 | the manifest and packed arguments together unpack to the arguments |
| OcBbs.CalleeRoundTrip | src/parallel/ocbbs.cpp:121-149 | the style, name or object header reads back as the callee |
| OcBbs.ExecuteCall | src/parallel/ocbbs.cpp:935-1042 | a header, manifest and arguments read back as that call |
| OcBbs.ExecuteHelper | src/parallel/ocbbs.cpp:935-1042 | `execute_helper` after the id: style 0 reads a statement; any other style reads its callee, the manifest and the arguments the manifest names, or fails on a missing or mistyped field |
| OcBbs.CallRoundTrip | src/parallel/ocbbs.cpp:935-1042 | `execute_helper` reads a packed call back as its callee and arguments |
| OcBbs.SubmitRoundTrip | src/parallel/ocbbs.cpp:110-181 | `execute_helper` reads every submitted body back as the job intended |
| OcBbs.EmptySubmissionUnreadable | src/parallel/ocbbs.cpp:166-178 | an object with no pickling packs nothing, which cannot be read |
| OcBbs.ReturnArgsCall | src/parallel/ocbbs.cpp:1044-1081 | `return_args` skips the id, the header and the argument-type manifest and leaves the packed arguments |
| OcBbs.ReturnArgs | src/parallel/ocbbs.cpp:1044-1081 | `return_args` consumes the id, the style and that style's header and manifest and leaves the remaining fields (an unknown style consumes nothing after the style), or fails on a missing or mistyped field |
| OcBbs.ReturnArgsLeavesArgs | src/parallel/ocbbs.cpp:1044-1081 | for every submission, `return_args` leaves the packed arguments, none for a statement |
| OcBbs.NoArgPickleAsWrittenUnreadable | src/parallel/ocbbs.cpp:171-176 | a style-3 job without arguments, as packed, fails in both readers |
| OcBbs.NoArgPickleReadable | src/parallel/ocbbs.cpp:171-176 | with a zero manifest it reads back as the pickled call with no arguments |
| OcBbs.ParallelContext.constructor | src/parallel/ocbbs.cpp:73-75 | `next_local_` starts at 0 and nothing is being packed |
| OcBbs.ParallelContext.PackHelp | src/parallel/ocbbs.cpp:241-263 | `pack_help` appends the packed arguments, starting a message when none is posting |
| OcBbs.ParallelContext.PackNoArgPickleAsWritten | src/parallel/ocbbs.cpp:171-176 | style 3 and the pickle, with no manifest |
| OcBbs.ParallelContext.PackNoArgPickle | src/parallel/ocbbs.cpp:171-176 | style 3, the pickle and a zero manifest |
| OcBbs.ParallelContext.PackCallee | src/parallel/ocbbs.cpp:121-149 | the header for a name, an object method or a pickle; an error when a name is missing |
| OcBbs.ParallelContext.PackNoArg | src/parallel/ocbbs.cpp:166-178 | a statement packs style 0 and its text |
| OcBbs.ParallelContext.PackCall | src/parallel/ocbbs.cpp:121-164 | header, manifest and arguments |
| OcBbs.ParallelContext.PackBody | src/parallel/ocbbs.cpp:120-179 | the body of a call or of a statement |
| OcBbs.SubmitBody | src/parallel/ocbbs.cpp:120-179 | what `submit_help` packs after the id: a call's header, manifest and arguments, or the body of a job without arguments |
| OcBbs.ParallelContext.SubmitHelp | src/parallel/ocbbs.cpp:110-181 | an explicit id in [0, 1e7] is kept, else the next negative local id; the message is that id and the body; errors as `chkarg` raises |
| OcBbs.ParallelContext.NextId | src/parallel/ocbbs.cpp:116-120 | an explicit id outside [0, 1e7] is an error and one inside is truncated; without one, `next_local_` is decremented and its new, negative value is the id |
| OcBbs.TwoSubmissions | src/parallel/ocbbs.cpp:116-120 | two submissions without ids get distinct negative ids |
| OcBbs.SendDispl | src/parallel/ocbbs.cpp:657-670 | the counts truncated to int and their prefix sums |
| OcBbs.Alltoall | src/parallel/ocbbs.cpp:651-701 | the serial path fails exactly when the counts are not nhost long or do not add up to the source's size, and otherwise gives back the source |
| OcBbs.SendBlocksInside | src/parallel/ocbbs.cpp:691-697 | each send block lies inside the source |
| OcBbs.BroadcastSerial | src/parallel/ocbbs.cpp:736-744 | the serial broadcast rejects a source id outside [0, nhost - 1] and returns the size of the string or vector |
| IvocMatrix.InstanceType | src/ivoc/ocmatrix.cpp:35-44 | MSPARSE gives a sparse matrix, every other code a full one |
| IvocMatrix.Instance | src/ivoc/ocmatrix.cpp:35-44 | `instance` makes a zero matrix of the shape and type asked for |
| IvocMatrix.AsFull | src/ivoc/ocmatrix.cpp:49-54 | `full` gives the full matrix behind a full Matrix, an error for any other |
| IvocMatrix.DiagRows | src/ivoc/ocmatrix.cpp:140-161 | the rows of the k-th diagonal inside the matrix |
| IvocMatrix.Refactors | src/ivoc/ocmatrix.cpp:247-265 | `solv` factors again unless reuse is asked and the cached factor has the same row count |
| IvocMatrix.ReuseAfterSolve | src/ivoc/ocmatrix.cpp:247-265 | after a solve, a reusing solve of the same size does not factor again |
| IvocMatrix.OcFullMatrix.constructor | src/ivoc/ocmatrix.cpp:56-60 | a zero matrix with no cached factor |
| IvocMatrix.OcFullMatrix.GetDiag | src/ivoc/ocmatrix.cpp:140-161 | out[i] receives m[i][i + k] along the diagonal; other entries of out stay |
| IvocMatrix.OcFullMatrix.SetDiag | src/ivoc/ocmatrix.cpp:175-196 | each diagonal entry takes the vector's element at its row; nothing else changes |
| IvocMatrix.OcFullMatrix.SetDiagScalar | src/ivoc/ocmatrix.cpp:212-225 | each diagonal entry becomes x; nothing else changes |
| IvocMatrix.OcFullMatrix.SetRowScalar | src/ivoc/ocmatrix.cpp:198-203 | every entry of row k becomes x; nothing else changes |
| IvocMatrix.OcFullMatrix.SetColScalar | src/ivoc/ocmatrix.cpp:205-210 | every entry of column k becomes x; nothing else changes |
| IvocMatrix.OcFullMatrix.Solv | src/ivoc/ocmatrix.cpp:247-265 | reports whether it factors; a factor of the matrix's size is cached; the entries stay |
| IvocMatrix.Materialise | src/ivoc/ocmatrix.cpp:298-309 | after `mep` the entry exists and every entry reads as before |
| IvocMatrix.SparseWriteReadsDense | src/ivoc/ocmatrix.cpp:347-365 | a vector write to a sparse matrix reads back like the same write to a full one |
| IvocMatrix.OcSparseMatrix.constructor | src/ivoc/ocmatrix.cpp:269-278 | no stored entries |
| IvocMatrix.OcSparseMatrix.Pelm | src/ivoc/ocmatrix.cpp:288-296 | the stored entry, or none |
| IvocMatrix.OcSparseMatrix.Mep | src/ivoc/ocmatrix.cpp:298-309 | a missing entry is created with value 0; the result is the entry's value; others stay |
| IvocMatrix.OcSparseMatrix.GetVal | src/ivoc/ocmatrix.cpp:311-313 | the stored value, 0 when absent |
| IvocMatrix.OcSparseMatrix.Put | src/ivoc/ocmatrix.cpp:355-362 | present entries take the value; absent ones are created only for nonzero values |
| IvocMatrix.OcSparseMatrix.SetRow | src/ivoc/ocmatrix.cpp:347-365 | row k reads back as the vector; nothing else changes |
| IvocMatrix.OcSparseMatrix.SetCol | src/ivoc/ocmatrix.cpp:367-385 | column k reads back as the vector; nothing else changes |
| IvocMatrix.OcSparseMatrix.SetDiag | src/ivoc/ocmatrix.cpp:387-422 | the k-th diagonal reads back as the vector; nothing else changes |
| IvocMatrix.OcSparseMatrix.SetRowScalar | src/ivoc/ocmatrix.cpp:424-429 | every entry of row k is stored with value x |
| IvocMatrix.OcSparseMatrix.SetColScalar | src/ivoc/ocmatrix.cpp:431-436 | every entry of column k is stored with value x |
| IvocMatrix.OcSparseMatrix.SetDiagScalar | src/ivoc/ocmatrix.cpp:438-451 | every entry of the k-th diagonal is stored with value x |
| IvocMatrix.OcSparseMatrix.WriteRow | src/ivoc/ocmatrix.cpp:347-365 | the column loop of both `setrow` forms |
| IvocMatrix.OcSparseMatrix.WriteCol | src/ivoc/ocmatrix.cpp:367-385 | the row loop of both `setcol` forms |
| IvocMatrix.OcSparseMatrix.WriteDiag | src/ivoc/ocmatrix.cpp:387-422 | the two diagonal loops of both `setdiag` forms |
| IvocMatrix.OcSparseMatrix.Solv | src/ivoc/ocmatrix.cpp:327-345 | the same reuse rule as the full matrix |
| IvocMatrix.WrittenDone | src/ivoc/ocmatrix.cpp:387-422 | when the diagonal loop stops, the whole diagonal is written |
| CText.ForwardSlashes | src/mswin/extra/neuron.cpp:34-38 | the string with every backslash made a slash, same length |
| CText.ForwardSlashesClean | src/uxnrnbbs/mos2nrn.cpp:45-49 | the result has no backslash, keeps every other character, and is still a C string |
| CText.ForwardSlashesIdempotent | src/uxnrnbbs/mos2nrn.cpp:45-49 | converting twice is converting once |
| CText.StrCpy | src/mswin/extra/neuron.cpp:33 | `strcpy` copies the characters and the NUL and leaves the rest |
| CText.ForwardInPlace | src/mswin/extra/neuron.cpp:34-38 | the in-place loop converts the string and leaves the buffer after it |
| CText.LastIn | src/mswin/extra/neuron.cpp:21 | the index of the last separator, or -1 |
| CText.ScanBack | src/mswin/extra/neuron.cpp:21 | the backward scan from the NUL stops at the last separator, or at -1 |
| NeuronLauncher.Back2Forward | src/mswin/extra/neuron.cpp:29-40 | a new string of the same length with every backslash made a slash |
| NeuronLauncher.SetNeuronHome | src/mswin/extra/neuron.cpp:17-27 | the path is cut at its last two backslashes, giving the directory above bin |
| NeuronLauncher.CutAtLast | src/mswin/extra/neuron.cpp:20-21 | one backward scan and its write: the string is cut at its last backslash, which removes exactly one backslash from it |
| NeuronLauncher.LastBackslashSplit | src/mswin/extra/neuron.cpp:21-24 | cutting at the last backslash removes exactly one backslash |
| NeuronLauncher.EscapedLength | src/mswin/extra/neuron.cpp:56-65 | each space takes two characters, every other character one |
| NeuronLauncher.EscapedClean | src/mswin/extra/neuron.cpp:56-65 | an escaped argument holds no space and no backslash |
| NeuronLauncher.UnescapeEscaped | src/mswin/extra/neuron.cpp:54-65 | unescaping an escaped argument without '@' gives back the argument with forward slashes |
| NeuronLauncher.JoinedLength | src/mswin/extra/neuron.cpp:52-70 | the line is the arguments' length plus their spaces plus the separators |
| NeuronLauncher.SumLengths | src/mswin/extra/neuron.cpp:47-50 | the loop sums the arguments' lengths |
| NeuronLauncher.WriteEscaped | src/mswin/extra/neuron.cpp:56-65 | the inner loop writes the escaped argument at j |
| NeuronLauncher.JoinArgs | src/mswin/extra/neuron.cpp:52-71 | the buffer holds the escaped arguments joined by single spaces and a NUL, when it is large enough |
| NeuronLauncher.ArgStr | src/mswin/extra/neuron.cpp:42-72 | `argstr` as written: in bounds only while spaces and separators stay under 100 |
| NeuronLauncher.ArgStrOverflow | src/mswin/extra/neuron.cpp:46-71 | one argument of 100 spaces needs 201 bytes where 200 are allocated |
| NeuronLauncher.SafeAllocation | src/mswin/extra/neuron.cpp:47-51 | a size that holds every argument list's line and NUL |
| NeuronLauncher.ArgStrSafe | src/mswin/extra/neuron.cpp:42-72 | `argstr` with that size writes the escaped line in bounds for every input |
| NeuronLauncher.LaunchCommand | src/mswin/extra/neuron.cpp:83-84 | the command `main` formats, which fits the buffer allocated for it |
| Mos2nrn.Back2Forward | src/uxnrnbbs/mos2nrn.cpp:41-51 | the string is copied into the 256-character buffer and its backslashes made slashes |
| Mos2nrn.Basefile | src/uxnrnbbs/mos2nrn.cpp:53-61 | the suffix after the last separator, or the whole path |
| Mos2nrn.BasefileOfJoin | src/uxnrnbbs/mos2nrn.cpp:53-61 | the base name of dir, separator, name is name |
| Mos2nrn.ReadHead | src/uxnrnbbs/mos2nrn.cpp:26 | the first five bytes, with the old buffer after a short file |
| Mos2nrn.Main | src/uxnrnbbs/mos2nrn.cpp:14-39 | usage and unopenable file exit 1; a "PK" file runs the zip command, any other the hoc command |
| Mos2nrn.ClassifiedByContents | src/uxnrnbbs/mos2nrn.cpp:28 | a file of two or more characters is a zip exactly when it starts with "PK" |
| Mos2nrn.IsZip | src/uxnrnbbs/mos2nrn.cpp:28 | `strncmp(buf, "PK", 2) == 0`: the file starts with "PK" |
| Common.Trunc | src/parallel/ocbbs.cpp:116-117 | the C cast `(int)x` truncates toward zero |
| Common.SumMonotone | src/nrniv/bgpdma.cpp:828-832 | with non-negative counts, a longer prefix sums to at least as much |

## Left out

- The Python glue around the geometries is left out: `nrn.Section` access, `h.arc3d` and `h.diam3d`, `__repr__`, and `warnings.warn` in ConstantArea. The 3D points are parameters.
- `numpy.sqrt` is a parameter of the surface-area pieces, so the area lemmas assume it is exact where they need it.
- `rxd/rate.py` is not part of this model.
- Geometry.Perimeters: models only the branch of `_make_perimeter_function` that computes; for a plain `nrn.Section` the source returns None.
- Floating point is modelled as real arithmetic throughout.
- Geometry.FrustumSplit: proves that one split on the linear diameter profile keeps the volume. It is not lifted to a segment's sum, where interior 3D points carry their own diameters.
- `nrnmpi_multisplit`'s hoc argument handling is left out, and its assertions are modelled as error results.
- `reorder`'s `ne == 0` branch is left out: it cannot run, since a single rank returns earlier.
- The multisplit MPI exchanges and the tree solver (`solve`, `bksub`, `triang`) are left out.
- MultiSplit.ReducedTree.Reorder: proves that a wrong number of edges, or an edge end without a rank, gives an error, but not the converse that n - 1 edges forming a spanning tree always give Ok.
- `free_elm` is modelled as releasing every element. The model does not keep a free list.
- sparse.c's `re_link`, `create_coef_list`, `spar_minorder`, `get_next_pivot`, `matsol`, `subrow` and `bksub` are left out. They are the elimination itself, not its bookkeeping.
- An `emalloc` failure is left out; allocation always succeeds in the model.
- DCMF, MPI, the clock (`DCMF_Timebase`, `nrnmpi_wtime`) and the persistent-request record and replay of `bgpdma.cpp` are left out. Clock readings are parameters.
- The `alltoallv` outputs between the two halves of `determine_target_hosts` and `determine_source_hosts` are inputs.
- The MPI collectives of `mpispike.c` are left out. What they gather is an input.
- The hoc and Python calls of `ocbbs.cpp` are left out. Pickles are opaque strings, and the message is a sequence of typed fields.
- `ocbbs.cpp`'s parallel `alltoall` and `broadcast` paths are left out. Only the serial paths are modelled.
- OcBbs.ParallelContext.SubmitHelp: packs the corrected body for a Python callable without arguments (style 3, the pickle and a zero manifest). The source packs only style 3 and the pickle, which `execute_helper` cannot read (see "## Findings"). OcBbs.ParallelContext.PackNoArgPickleAsWritten models the source's body and OcBbs.NoArgPickleAsWrittenUnreadable shows the failure.
- OcBbs.ParallelContext.PackBody: its body for a Python callable without arguments is the corrected one, as for SubmitHelp above; so is OcBbs.SubmitBody's.
- OcBbs.SubmitRoundTrip: holds for the corrected body of a Python callable without arguments, not for the source's (see OcBbs.NoArgPickleAsWrittenUnreadable). It also holds for any number of arguments only because the manifest is unbounded (see OcBbs.ArgTypes below).
- OcBbs.ReturnArgsLeavesArgs: holds for the corrected body of a Python callable without arguments, not for the source's.
- OcBbs.ArgTypes: the manifest is an unbounded integer. The source's manifest is a 32-bit `int`, and `argtypes += k*ii; ii *= 5` overflows from the 14th argument on; OcBbs.EncodeFitsInt proves that 13 arguments fit.
- OcBbs.ManifestRoundTrip: holds for any number of arguments only because the manifest is unbounded; with the source's 32-bit `int` it holds for at most 13 arguments.
- OcBbs.CallRoundTrip: holds for any number of arguments only because the manifest is unbounded; with the source's 32-bit `int` it holds for at most 13 arguments.
- OcBbs.EmptySubmissionUnreadable: an object without a pickle stands for Python not being loaded. With Python loaded, the source packs style 3 and whatever `nrnpy_po2pickle` returns, even for a hoc object, and the model does not tell these cases apart.
- OcBbs.ParallelContext.PackNoArg: packs nothing for an object without a pickle, which is the source's behaviour only when Python is not loaded (see OcBbs.EmptySubmissionUnreadable above).
- IvocMatrix.Instance: assumes MSPARSE is 2. The header that defines it is not part of this model.
- The full matrix's vector `setrow`, `setcol`, `getrow` and `getcol` and the other Meschach calls are left out.
- IvocMatrix.OcFullMatrix.Solv: does not model the LU factor's contents or the solution, only when a factor is computed.
- IvocMatrix.OcFullMatrix.GetDiag: requires the vector to hold at least nrow elements, which the source does not check.
- NeuronLauncher.SetNeuronHome: requires the path to hold two backslashes; otherwise the source writes `buf[-1]`.
- `GetModuleFileName` is a parameter of the launcher. `WinExec` and `MessageBox` are left out.
- Mos2nrn.Main: does not model the 256-byte bound of the `sprintf` into `buf`.
- Mos2nrn.Back2Forward: requires a string of fewer than 256 characters. The source's `strcpy` into its 256-character buffer overflows for longer strings, and that overflow is not modelled.
- `fopen`, `fread`, `getdname`, `getenv` and `system` are parameters or left out.

## Findings

| source | as written | input that shows it | evidently intended | confidence | as-written member | corrected member |
|---|---|---|---|---|---|---|
| src/mswin/extra/neuron.cpp:46-71 | `argstr` allocates 100 characters more than the arguments' total length. It writes two characters per space, one separator between arguments and a NUL. | one argument of 100 spaces: 201 characters written into 200 | a buffer that holds the escaped line and its NUL | not executed | NeuronLauncher.ArgStrOverflow | NeuronLauncher.ArgStrSafe |
| src/parallel/ocbbs.cpp:171-176 | a Python callable submitted without arguments packs style 3 and the pickle, but no manifest | `pc.submit(f)` with a picklable `f`: `execute_helper` (993) and `return_args` (1076) then read a manifest past the end | style 3 followed by a zero manifest, as for a call with arguments | not executed | OcBbs.NoArgPickleAsWrittenUnreadable | OcBbs.NoArgPickleReadable |
| src/nrnmpi/mpispike.c:184-189 | `byteovfl` is allocated only inside `if (!displs)` | a plain exchange, which allocates `displs`, followed by a compressed one: `byteovfl` is still null when written | each array allocated when it is missing | not executed | MpiSpike.SwitchToCompressedAsWritten | MpiSpike.SwitchToCompressed |
