# Verified model of the document and flowchart algorithms

This project models, in Dafny, the data algorithms at the centre of a repository that combines a flowchart
extractor, the MinerU document parser and the RAGFlow agent runtime, and proves what they promise.

| file | subject |
|---|---|
| `Graphs.dfy`, `Skeleton.dfy`, `Contraction.dfy` | the pixel graph of a flowchart and the contraction of its degree-2 vertices |
| `Chains.dfy`, `Survival.dfy`, `Simplification.dfy` | which endpoints and junctions keep their degree, which survive, and the contraction loop |
| `LinkSearch.dfy`, `FlowchartEdges.dfy` | finding and orienting box-to-box links, and the pipeline from pixels to links |
| `GraphBuilder.dfy` | the directed graph of the links and the pass that reverses edges |
| `Otsl.dfy`, `OtslRoundTrip.dfy`, `OtslStreams.dfy` | reading a table written as OTSL tokens; printing and reading back; when reading fails |
| `HtmlTables.dfy`, `HtmlRoundTrip.dfy` | printing HTML tables, slot allocation with row and column spans, the round trip |
| `TableMerge.dfy` | header detection and merging of tables across pages, over a whole document |
| `LayoutTables.dfy` | merging overlapping table detections while an index list follows |
| `IndexMatching.dfy`, `DistanceMatching.dfy`, `BoxDistances.dfy` | attaching captions and footnotes by reading order and by distance; the distance of two boxes |
| `CharGrid.dfy`, `Intervals.dfy`, `PageRanges.dfy` | the bucket grid for characters, interval subtraction, parallel page ranges |
| `CanvasPath.dfy` | the worklist of an agent workflow run |
| `Sorting.dfy`, `Basics.dfy` | stable sorting; shared facts about sets, sequences and numbers |

Code that changes things step by step is a class or a method with loops, proved against a specification function
or predicate; the lemmas are about those specifications. Where Python iterates over a dictionary or set, the model
takes the elements in any order, so the results hold for every order. Coordinates are integers or reals and
comparisons are exact.

Five places where the code and what it is documented or expected to do differ, each proved:

- Contraction is documented to preserve endpoints and junctions. They keep their degrees exactly if in the input no two
  different chains of degree-2 vertices join the same two of them and no chain closes on one of them; a plain edge
  counts as a chain (`Chains.KeptExactlyWithoutChains`). They survive as vertices exactly if none of them has two other
  ends and closed chains together (`Simplification.SurvivalAtTheEnd`). A triangle with a tail violates both
  (`Chains.JunctionCanVanish`, `Chains.LollipopIsCollapsible`).
- The reversal pass is described as reversing edges that reduce the number of cycles. It reverses an edge exactly if
  no more simple paths lead along it than against it, and reduces cycles exactly if fewer do
  (`GraphBuilder.TurnedExactly`, `GraphBuilder.PassTurnsExactly`); so in a cyclic graph every bridge is turned round
  (`GraphBuilder.BridgesAreReversed`).
- Reading OTSL can fail with an index error (`OtslStreams.ReadingCanFail`). If every text stands behind a cell token and
  no line is empty, it does exactly if a line of full length ends in a full cell without text and the next line
  begins with a left or cross cell (`OtslStreams.FailsExactly`). In any other input with a cell token texts can get out
  of step with tokens, and the same condition holds for the slots as the reader fills them
  (`OtslRoundTrip.ParseAnyInput`); without a cell token nothing fails (`OtslStreams.ReadWithoutCells`).
- The direction of a link depends on the end that is explored first exactly when the arrowhead tests agree and the
  box centres coincide (`LinkSearch.OrientationIgnoresStart`).
- Matching by distance drops all objects when there is no subject (`DistanceMatching.IsPartition`).

`dafny verify dfyconfig.toml` checks the whole project.

## Model

| member | source | states |
|---|---|---|
| `Skeleton.BuildSkeletonGraph` | flowchart/flowchart/lines.py:7-33 | one vertex per skeleton pixel; an edge of weight 1 between two pixels if and only if they touch, diagonals included; the graph is symmetric and has no self-loop |
| `Contraction.ContractEdge` | flowchart/flowchart/lines.py:51-63 | after one contraction two vertices are joined if and only if they were joined before or are the two neighbours of the removed vertex; the new edge has the smaller of the old and the combined weight, all others keep theirs |
| `Contraction.ContractSameDistances` | flowchart/flowchart/lines.py:51-63 | one contraction: for any two remaining vertices a walk of weight at most W exists afterwards if and only if one existed before |
| `Contraction.ContractDegree` | flowchart/flowchart/lines.py:57-63 | one contraction raises no degree; an end of the new edge loses one exactly when the two neighbours were joined already (the guard of line 59) |
| `Contraction.RunKeepsDistances` | flowchart/flowchart/lines.py:40-70 | any run of contractions, of any length and order, keeps the graph simple and every bound on walks between survivors |
| `Contraction.RunKeepsShortestPaths` | flowchart/flowchart/lines.py:40-70 | shortest distances and connectivity between survivors are the same before and after any run |
| `Contraction.RunDegrees` | flowchart/flowchart/lines.py:35-39 | over any run no degree rises, and every vertex of degree 0 or 1 survives with its degree |
| `Contraction.RunCovers` | flowchart/flowchart/lines.py:40-70 | no component disappears: every original vertex is connected to a survivor |
| `Chains.ChainsCorrespond` | flowchart/flowchart/lines.py:51-63 | one contraction that meets no existing edge: taking the removed vertex out of a chain gives a chain of the new graph with the same ends, putting it back between its neighbours gives a chain of the old one, and each undoes the other |
| `Chains.StepKeepsChains` | flowchart/flowchart/lines.py:51-63 | after such a contraction two different chains with the same ends, or a closed one, exist exactly if they existed before |
| `Chains.RunKeepsChains` | flowchart/flowchart/lines.py:40-70 | as long as a run keeps endpoints and junctions, two chains with the same ends, or one that closes, exist after it if and only if they exist in the input |
| `Chains.KeptWithoutChains` | flowchart/flowchart/lines.py:36-39 | if in the input no two different chains of degree-2 vertices join the same two endpoints or junctions and none closes on one, every run, complete or not, keeps all of them with their degrees |
| `Chains.KeptExactlyWithoutChains` | flowchart/flowchart/lines.py:36-39 | the documented promise that endpoints and junctions are preserved holds of a complete contraction, with their degrees, if and only if in the input no two different chains join the same two of them and none closes on one; an edge counts as a chain without inner vertices |
| `Chains.JunctionCanVanish` | flowchart/flowchart/lines.py:38-61 | the promise fails in general: a triangle with a tail loses its junction of degree 3 |
| `Chains.LollipopIsCollapsible` | flowchart/flowchart/lines.py:36-39 | that input meets the exact condition for failure: its triangle is a chain that closes on the junction |
| `Survival.ArmsStep` | flowchart/flowchart/lines.py:51-63 | contracting a vertex that is no endpoint or junction keeps, for each of these, the number of other ends of chains plus closed chains plus what is left of closed chains, whether or not parallel edges collapse |
| `Survival.SparingKeepsArms` | flowchart/flowchart/lines.py:46-66 | so does any run that contracts no endpoint or junction, as the first pass of the loop is |
| `Survival.DegreeTwoIsTwoArms` | flowchart/flowchart/lines.py:42-66 | when such a run has nothing left to contract, an endpoint or junction has degree 2 exactly if in the input its other ends and closed chains are two together |
| `Simplification.ContractListed` | flowchart/flowchart/lines.py:46-66 | one pass over the listed vertices contracts the first for sure, raises no degree, and leaves each listed vertex gone or with fewer than two neighbours |
| `Simplification.SurvivalAtTheEnd` | flowchart/flowchart/lines.py:36-39 | the promise that endpoints and junctions survive as vertices holds if and only if in the input none of them has exactly two other ends and closed chains together |
| `Simplification.ContractNode` | flowchart/flowchart/lines.py:51-63 | the in-place step on the graph object is one contraction between the two neighbours, and removes one vertex |
| `Simplification.SimplifyGraphTopology` | flowchart/flowchart/lines.py:35-70 | the nested loop terminates; its result is a run of contractions of a copy of the input and has no vertex of degree 2 left; endpoints and junctions are kept with their degrees, and survive at all, exactly under the two conditions above |
| `LinkSearch.SearchAreaIsRim` | flowchart/flowchart/lines.py:72-82 | the search area of a box consists of the points of the page that are no further from the box than the proximity, across and in height |
| `LinkSearch.MapGraphNodesToBoxes` | flowchart/flowchart/lines.py:72-96 | a vertex is mapped exactly if some search area contains it, and then to the first such box |
| `LinkSearch.LinkedIsSymmetric` | flowchart/flowchart/lines.py:170-233 | being linked does not depend on the end from which the walk is followed |
| `LinkSearch.OrientationIgnoresStart` | flowchart/flowchart/lines.py:201-227 | the recorded direction is the same from either end if and only if the arrowhead tests differ or the box centres differ; it always joins the same two boxes |
| `LinkSearch.FrontierIsComplete` | flowchart/flowchart/lines.py:174-233 | when the stack is empty, every vertex of every walk that touches no box on its way has been visited |
| `LinkSearch.SearchIsExact` | flowchart/flowchart/lines.py:174-233 | an exhausted search has met exactly the vertices of other boxes that can be reached without touching a box on the way |
| `LinkSearch.LinkFinder.RecordPair` | flowchart/flowchart/lines.py:185-227 | the links stay as they were, followed by one new link, oriented from the start vertex, exactly if the boxes differ and the unordered pair was not recorded before |
| `LinkSearch.LinkFinder.ExploreFrom` | flowchart/flowchart/lines.py:170-233 | one search adds exactly the unordered pairs that its start forms with linked vertices, each at most once over all searches |
| `LinkSearch.LinkFinder.DetectLinks` | flowchart/flowchart/lines.py:165-233 | after exploring all box-touching vertices an unordered pair is recorded if and only if it is linked |
| `LinkSearch.OneLinkPerPair` | flowchart/flowchart/lines.py:188-227 | every linked pair has exactly one link, between its two different boxes: it ends at the box with the only arrowhead; with none or two it leads to the lower box if the centres differ more in height than across, and else not to the left; where this decides, it does not depend on the exploration |
| `LinkSearch.LinksIgnoreOrder` | flowchart/flowchart/lines.py:165-233 | if every linked pair is decided by arrowheads or centres, any two orders of exploration give the same links, counted with multiplicity |
| `FlowchartEdges.LinkIsInSkeleton` | flowchart/flowchart/lines.py:154-233 | a link found in the contracted graph joins pixels that the skeleton graph connects, at the same shortest distance |
| `FlowchartEdges.DetectEdgesAndArrows` | flowchart/flowchart/lines.py:137-233 | the whole pipeline from pixels: the links are exactly those of the linked vertex pairs of the contracted pixel graph, one for each; every link joins two different boxes, each the first to claim its pixel, through pixels that are connected by touching skeleton pixels, and points to the only arrowhead, or else down or to the right by the box centres |
| `GraphBuilder.SimpleCyclesAreAll` | flowchart/flowchart/graph_builder.py:31 | the enumeration used for counting holds exactly the simple cycles, each once |
| `GraphBuilder.ClosedWalkHasCycle` | flowchart/flowchart/graph_builder.py:31-32 | every closed walk contains a simple cycle |
| `GraphBuilder.AcyclicMeansNoCycles` | flowchart/flowchart/graph_builder.py:31-32 | there is no simple cycle if and only if there is no closed walk |
| `GraphBuilder.PassKeepsLines` | flowchart/flowchart/graph_builder.py:36-50 | for any snapshot order: edge count and undirected adjacency stay, one-way edges stay one-way and antiparallel pairs stay, the number of simple cycles does not rise, and edges not yet tried are still present |
| `GraphBuilder.SimplePathsAreAll` | flowchart/flowchart/graph_builder.py:31 | the set of simple paths between two vertices that is used for counting is complete |
| `GraphBuilder.CycleCountWithEdge` | flowchart/flowchart/graph_builder.py:38-41 | adding an edge adds exactly as many simple cycles as there are simple paths from its head back to its tail |
| `GraphBuilder.TurnedExactly` | flowchart/flowchart/graph_builder.py:38-47 | one attempt at a one-way edge: the number of cycles changes by the number of other simple paths along the edge minus the number against it, so the edge is turned if and only if there are not more of the former, and cycles get fewer if and only if there are fewer |
| `GraphBuilder.PassTurnsExactly` | flowchart/flowchart/graph_builder.py:36-50 | over the whole pass a one-way edge ends up turned if and only if at its turn there were not more paths along it than against it |
| `GraphBuilder.BridgesAreReversed` | flowchart/flowchart/graph_builder.py:33-47 | an edge without which nothing joins its two ends, in any direction, always ends up turned, although that changes no cycle |
| `GraphBuilder.PendantEdgesAreReversed` | flowchart/flowchart/graph_builder.py:33-47 | in particular the only edge of a vertex ends up turned, although the comment speaks of reversing only to reduce cycles |
| `GraphBuilder.ReduceCycles` | flowchart/flowchart/graph_builder.py:29-50 | the loop with its removals, additions and reverts never removes an absent edge and equals the pass over a snapshot of the edges |
| `GraphBuilder.BuildGraph` | flowchart/flowchart/graph_builder.py:5-50 | vertices and distinct edges are those of the boxes and links; an acyclic graph is left unchanged; otherwise lines are kept and cycles do not increase |
| `Otsl.StripIs` | MinerU/mineru/utils/format_utils.py:233 | stripping takes off white space only and leaves none at either end |
| `OtslRoundTrip.BlankTextsAreDropped` | MinerU/mineru/utils/format_utils.py:106-121 | of all tokens and texts of the input only blank texts are left out |
| `Otsl.PadRows` | MinerU/mineru/utils/format_utils.py:136-142 | shorter token rows are filled with empty cells up to the longest |
| `Otsl.FillTexts` | MinerU/mineru/utils/format_utils.py:144-162 | the loop over tokens and texts rebuilds the input from the slots: each token takes its text only if it matches the input |
| `Otsl.CountRight` | MinerU/mineru/utils/format_utils.py:164-172 | the length of the run of left and cross cells from a place to the right |
| `Otsl.CountDown` | MinerU/mineru/utils/format_utils.py:174-182 | the length of the run of up and cross cells from a place downwards |
| `Otsl.ParseItems` | MinerU/mineru/utils/format_utils.py:184-253 | the loop over items with its row and column counters yields the cells of the recursive reading, or its index error |
| `OtslRoundTrip.ParseAnyGrid` | MinerU/mineru/utils/format_utils.py:184-253 | on any token grid reading fails with an index error if and only if the slot at the end of a row is a full cell that was given no text and the next row begins with a left or cross cell; otherwise each full or empty cell is emitted exactly once in row order, inside the grid, with the whole run of left and cross cells that it sees to its right and of up and cross cells below as its spans, and with the text of its slot |
| `OtslRoundTrip.ParseAnyInput` | MinerU/mineru/utils/format_utils.py:124-253 | the same for any tokens and texts with at least one cell token, matching or not, after splitting and padding |
| `OtslRoundTrip.TileSpans` | MinerU/mineru/utils/format_utils.py:199-229 | at a corner of a rectangle of a tiling the two counted runs give its width and height |
| `OtslRoundTrip.RefillGrid` | MinerU/mineru/utils/format_utils.py:144-162 | on its own printed form, every token finds its text again |
| `OtslRoundTrip.PrintedFormSplits` | MinerU/mineru/utils/format_utils.py:106-134 | splitting the printed form of a tiling into tokens, texts and rows gives back the grid |
| `OtslRoundTrip.OtslRoundTrip` | MinerU/mineru/utils/format_utils.py:124-253 | reading the printed tokens of any tiling by rectangles recovers exactly its rectangles with their texts, row by row |
| `OtslStreams.RowsSpell` | MinerU/mineru/utils/format_utils.py:106-134 | the lines of an input whose texts all stand behind cell tokens and whose lines are not empty spell exactly that input |
| `OtslStreams.PaddedRefill` | MinerU/mineru/utils/format_utils.py:136-162 | after padding, every token of such an input is given exactly the text that stands behind it, and padding none |
| `OtslStreams.FailsExactly` | MinerU/mineru/utils/format_utils.py:124-253 | reading such an input fails with an index error if and only if a line of full length ends in a full cell without text and the next line begins with a left or cross cell |
| `OtslStreams.ReadWithoutCells` | MinerU/mineru/utils/format_utils.py:124-253 | an input without any cell token yields no cells and no error |
| `OtslStreams.ReadingCanFail` | MinerU/mineru/utils/format_utils.py:199-206 | a full cell without text, a new line and a left cell make the reader fail |
| `HtmlTables.LastCellOwns` | MinerU/mineru/utils/format_utils.py:66-92 | the last cell that covers a slot has it |
| `HtmlTables.NoCellOwns` | MinerU/mineru/utils/format_utils.py:66-92 | a slot that no cell covers is an empty cell of its own |
| `HtmlTables.Grid` | MinerU/mineru/utils/format_utils.py:61-92 | every slot holds the last cell that spans it, or an empty cell of its own |
| `HtmlTables.HtmlCellIs` | MinerU/mineru/utils/format_utils.py:287-297 | a printed cell has the text without the white space at its ends, and a span attribute exactly where the span is above 1 |
| `HtmlTables.ExportToHtml` | MinerU/mineru/utils/format_utils.py:256-304 | row by row the cells that start in their own slot, with span attributes only where they exceed 1; nothing without cells |
| `HtmlTables.SkipOccupied` | MinerU/mineru/utils/table_merge.py:98-99 | the pointer stops at the first free column from where it stood |
| `HtmlTables.Occupy` | MinerU/mineru/utils/table_merge.py:104-109 | exactly the slots of the spanned area are added |
| `HtmlTables.BuildTableOccupiedMatrix` | MinerU/mineru/utils/table_merge.py:73-119 | for every row the result is one more than the last column taken in it, by its own cells or by spans from above |
| `HtmlTables.CalculateTableTotalColumns` | MinerU/mineru/utils/table_merge.py:28-70 | the furthest position that the column pointer has reached behind any cell of any row |
| `HtmlRoundTrip.ColumnCountersAgree` | MinerU/mineru/utils/table_merge.py:45-119 | with spans of at least one row the pointer-based column count is the maximum of the effective columns over all rows |
| `HtmlRoundTrip.CountersDifferOnZeroRowspan` | MinerU/mineru/utils/table_merge.py:57-68 | the two counts differ for a single cell with rowspan 0 |
| `HtmlRoundTrip.GridOfCorners` | MinerU/mineru/utils/format_utils.py:61-92 | writing the rectangles of a tiling into the empty grid gives back the tiling |
| `HtmlRoundTrip.ListOfTiles` | MinerU/mineru/utils/format_utils.py:80-92 | a list of rectangles that covers each slot exactly once labels the grid as a tiling with exactly these rectangles |
| `HtmlRoundTrip.PlaceCorner` | MinerU/mineru/utils/table_merge.py:97-111 | when everything left of a corner is taken, the next cell is placed at that corner |
| `HtmlRoundTrip.RowsAreReplayed` | MinerU/mineru/utils/table_merge.py:89-111 | before each row exactly the slots of rectangles from earlier rows are taken, and the row before was placed in its original columns |
| `HtmlRoundTrip.HtmlRoundTrip` | MinerU/mineru/utils/table_merge.py:86-119 | slot allocation on the HTML printed for any tiling puts every cell back into its row and column with its text and spans, and every row has exactly the width of the grid |
| `HtmlRoundTrip.ConvertOtslToHtml` | MinerU/mineru/utils/format_utils.py:307-319 | extraction, reading, grid and export composed, with the index error kept |
| `HtmlRoundTrip.OtslBecomesHtml` | MinerU/mineru/utils/format_utils.py:307-319 | the printed tokens of a tiling are converted to exactly the HTML rows of that tiling |
| `TableMerge.NormIsLook` | MinerU/mineru/utils/table_merge.py:218-221 | normalised texts are equal if and only if the visible characters of the raw texts agree one by one up to their width |
| `TableMerge.NormShowsVisible` | MinerU/mineru/utils/table_merge.py:218-221 | a normalised text consists of exactly the visible characters of the raw text, in order, in half-width form |
| `TableMerge.HalfWidthIs` | MinerU/mineru/utils/char_utils.py:38-54 | two characters have the same half-width form exactly if they are equal or one is the full-width form of the other; only the 94 full-width forms change, and white space stays white space |
| `TableMerge.PlainTextLooksAlike` | MinerU/mineru/utils/table_merge.py:227 | a reported header text looks like the raw text, without full-width forms and without white space at its ends |
| `TableMerge.DetectTableHeaders` | MinerU/mineru/utils/table_merge.py:170-284 | the number of strictly matching rows on top of both tables, at most 5, and if there is none the number of rows that match in visible texts and width only; the match flag is set exactly if it is positive |
| `TableMerge.HeaderTextsAgree` | MinerU/mineru/utils/table_merge.py:194-237 | in every detected header row the visible characters of the raw cell texts agree one by one up to width, and the row behind fewer than 5 of them does not match |
| `TableMerge.AdjustTableRowsColspan` | MinerU/mineru/utils/table_merge.py:419-468 | only rows in range change, each by its effective columns before any change, and only column spans change |
| `TableMerge.AdjustedRowKeepsContent` | MinerU/mineru/utils/table_merge.py:446-468 | adjusting a row keeps its cells, texts and row spans |
| `TableMerge.WidenedByShortfall` | MinerU/mineru/utils/table_merge.py:461-468 | the widening branch adds exactly the missing effective columns to the row; it overshoots the target exactly if the row was wider than its effective columns |
| `TableMerge.FittedToReference` | MinerU/mineru/utils/table_merge.py:454-460 | a row fitted to the reference row takes each span above 1 from it and keeps its own elsewhere; its spans become those of the reference exactly if it agreed with those that are not above 1 |
| `TableMerge.PerformTableMerge` | MinerU/mineru/utils/table_merge.py:471-521 | the rows of the first table and then those of the second without a header prefix of at most 5 rows; each dropped row looks, cell by cell and character by character, like the row at its position in the first table; no cell text changes; the rows of the narrower table are adjusted to the column count of the wider one, which stays as it is |
| `TableMerge.PlannedStep` | MinerU/mineru/utils/table_merge.py:540-588 | one step of the reverse pass: the break is done with the first table of its page as the later merges have left it, and the later breaks stay done |
| `TableMerge.FinalStep` | MinerU/mineru/utils/table_merge.py:574-588 | a merge at a break changes exactly the two tables that meet there: the earlier one gets the joined rows, the later one is emptied and marked |
| `TableMerge.OpenRowsMerged` | MinerU/mineru/utils/table_merge.py:506-513 | one merge: the rows from its page on are those of the page and then all later ones without exactly the header prefix, in order and with their contents |
| `TableMerge.HeaderIsRepeated` | MinerU/mineru/utils/table_merge.py:194-237 | a header dropped at a break has at most five rows, and each looks, cell by cell and character by character up to width, like the row at the same position of the table it was joined to |
| `TableMerge.RowsAreConserved` | MinerU/mineru/utils/table_merge.py:537-588 | in reading order the document keeps exactly its original rows, with their contents, but for the dropped header prefixes |
| `TableMerge.ChainCollapses` | MinerU/mineru/utils/table_merge.py:537-588 | the first table of a chain ends up with its own rows followed by those of the rest of the chain without the dropped headers, in order and with their contents |
| `TableMerge.Document.MergeAtBreak` | MinerU/mineru/utils/table_merge.py:545-588 | a merge happens exactly if both neighbours are tables and may be merged; the header is the detected one, the rows are joined and the narrower table is adjusted; the earlier table gets all rows and the later one is emptied |
| `TableMerge.Document.MergeTables` | MinerU/mineru/utils/table_merge.py:537-588 | after the reverse pass there was a merge at exactly the breaks where two tables met that could be merged at that moment, each a join of the original upper table with the lower one as merged before; every block that is no such table is unchanged, and rows are conserved but for header prefixes of at most five repeated rows |
| `LayoutTables.IouCountsCells` | MinerU/mineru/utils/model_utils.py:58-85 | for any two boxes the value is the number of unit cells in both divided by the number in either, and 0 if there is none |
| `LayoutTables.WholeOverlap` | MinerU/mineru/utils/model_utils.py:71-85 | for boxes with an area the value is at most 1, and 1 exactly for equal boxes |
| `LayoutTables.OverlapIsSymmetric` | MinerU/mineru/utils/model_utils.py:71-85 | the order of the two boxes does not matter |
| `LayoutTables.CellsOfRegion` | MinerU/mineru/utils/model_utils.py:50-56 | with coordinates that are not negative the cells of a detection are those between the edges of its polygon |
| `LayoutTables.ShiftedIs` | MinerU/mineru/utils/model_utils.py:146-151 | the index comprehension keeps the other indices in order, each at its place after the two deletions |
| `LayoutTables.MergeTwoAligned` | MinerU/mineru/utils/model_utils.py:133-157 | one merge keeps tables and layout entries aligned under increasing indices and lowers the number of tables by one |
| `LayoutTables.MergeTwoKeepsOthers` | MinerU/mineru/utils/model_utils.py:139-143 | one merge keeps all layout entries that are not tables, in order |
| `LayoutTables.MergedTable` | MinerU/mineru/utils/model_utils.py:124-160 | the table appended last is a copy of the first of the pair with the least rectangle around both as its polygon |
| `LayoutTables.MergeTwoGrouped` | MinerU/mineru/utils/model_utils.py:124-160 | after one merge every current box is still the hull of its group of original tables, and the groups still divide the originals |
| `LayoutTables.EveryTableIsCovered` | MinerU/mineru/utils/model_utils.py:107-170 | every original table, with truncated coordinates, lies inside exactly the final table of its group |
| `LayoutTables.TableLists.CategorizeTables` | MinerU/mineru/utils/model_utils.py:354-366 | the caller collects exactly the entries of the table category with their places, which establishes the alignment |
| `LayoutTables.TableLists.FindOverlap` | MinerU/mineru/utils/model_utils.py:116-164 | the first pair, in loop order, whose common unit cells are a larger part of its cells than the threshold, or the fact that there is no such pair |
| `LayoutTables.TableLists.MergePair` | MinerU/mineru/utils/model_utils.py:124-160 | the deletions and appends on the three lists amount to one merge |
| `LayoutTables.TableLists.MergeHighIouTables` | MinerU/mineru/utils/model_utils.py:107-170 | the result is reached by merging, again and again, the first pair whose common unit cells exceed the threshold, until no pair does; lists aligned, other entries unchanged in order, each final box the hull of a group of originals |
| `IndexMatching.CalcEffectiveIndexDiff` | MinerU/mineru/utils/magic_model_utils.py:219-237 | the distance of the indices minus the objects strictly between them |
| `IndexMatching.DiffGrows` | MinerU/mineru/utils/magic_model_utils.py:219-237 | on either side of an object the effective difference grows strictly from a subject to any farther one |
| `IndexMatching.AtMostTwoNearest` | MinerU/mineru/utils/magic_model_utils.py:262-290 | with distinct subject indices that are not object indices at most two subjects are nearest, so the exception cannot be raised |
| `IndexMatching.NearestIsNeighbor` | MinerU/mineru/utils/magic_model_utils.py:245-258 | no subject stands between an object and a nearest subject |
| `IndexMatching.FindBest` | MinerU/mineru/utils/magic_model_utils.py:245-258 | the running minimum collects exactly the nearest subjects, in order |
| `IndexMatching.PickIgnoresOrder` | MinerU/mineru/utils/magic_model_utils.py:263-288 | which of two tied subjects is chosen depends on their order in the list only if edge and centre distances tie as well |
| `IndexMatching.PickIsPreferred` | MinerU/mineru/utils/magic_model_utils.py:263-288 | of two tied subjects the one chosen is nearer by more than 2 edge to edge, or else has the larger index for a table caption, the smaller index for a footnote, and otherwise the nearer centre; the first in the list wins a tie |
| `IndexMatching.AttachedIsNeighbor` | MinerU/mineru/utils/magic_model_utils.py:240-293 | an object and the subject it is attached to are neighbours in subject order |
| `IndexMatching.OwnedByOne` | MinerU/mineru/utils/magic_model_utils.py:292-299 | the lists of all subjects together hold each object once |
| `IndexMatching.TieUpCategoryByIndex` | MinerU/mineru/utils/magic_model_utils.py:173-299 | each subject gets, in order, exactly the objects attached to it; the subject of an object is nearest in effective index and preferred, by edge distance, then by index or centre distance, to every other nearest one; the error is raised if and only if some object has more than two nearest subjects, and never with well-formed indices |
| `IndexMatching.EqualSubjectsTie` | MinerU/mineru/utils/magic_model_utils.py:289-290 | without distinct subject indices the error is reachable: three equal ones tie |
| `IndexMatching.OverlappingIndicesTie` | MinerU/mineru/utils/magic_model_utils.py:219-237 | with subject indices that are also object indices it is reachable too: subjects at 0, 1 and 2 tie for the object at 3 when objects are at 1, 2 and 3 |
| `BoxDistances.DistanceIsLeast` | MinerU/mineru/utils/boxbase.py:39-74 | no two points of two boxes are nearer to each other than the distance of the boxes |
| `BoxDistances.DistanceIsAttained` | MinerU/mineru/utils/boxbase.py:39-74 | some two points of the boxes are exactly that far apart |
| `DistanceMatching.Matcher.ChoosePair` | MinerU/mineru/utils/magic_model_utils.py:73-103 | one of the pair is nearest to the top left corner of all unseen boxes, and of the unseen ones of the other kind none is nearer to it than its partner, but for boxes nearer to it than itself; there is no pair only if one kind is used up or some box is nearer to another than to itself |
| `DistanceMatching.Matcher.ChosenIsNearest` | MinerU/mineru/utils/magic_model_utils.py:85-98 | with the distance of well-formed boxes the partner is always a nearest one |
| `DistanceMatching.Matcher.NoPairMeansUsedUp` | MinerU/mineru/utils/magic_model_utils.py:78-98 | with the distance of well-formed boxes there is no pair exactly if one kind is used up |
| `DistanceMatching.Matcher.NearestDistance` | MinerU/mineru/utils/magic_model_utils.py:105-110 | the least distance of any subject from the object |
| `DistanceMatching.Matcher.MatchPair` | MinerU/mineru/utils/magic_model_utils.py:105-126 | a pair less than three times as far apart as the object from any subject becomes an entry, of any other pair only the subject is marked; each round marks something not seen before and keeps entries, seen subjects and seen objects consistent |
| `DistanceMatching.Matcher.MatchPairs` | MinerU/mineru/utils/magic_model_utils.py:72-126 | the first loop ends in a state reached from the first by rounds, each with a pair chosen among what is unseen, and at the end every subject has an entry or no pair is left |
| `DistanceMatching.Matcher.AttachRemaining` | MinerU/mineru/utils/magic_model_utils.py:128-157 | earlier attachments stay and every new one is to the first of the nearest subjects; every object is seen afterwards; with numbers that do not collide the new attachments are exactly those of the unseen objects |
| `DistanceMatching.IsPartition` | MinerU/mineru/utils/magic_model_utils.py:120-170 | entries with the seen objects form a partition if and only if there is a subject or no object |
| `DistanceMatching.Matcher.TieUpCategoryByDistance` | MinerU/mineru/utils/magic_model_utils.py:31-170 | the attachments are those of the rounds of the first loop, run from nothing until no pair is left, and those of each object then unseen to the first of its nearest subjects; one entry per subject; each object in exactly one entry if and only if there is a subject or no object; every matched object is less than three times as far as from its nearest subject, or its subject is the nearest |
| `CharGrid.InSpanOnLine` | MinerU/mineru/utils/span_pre_proc.py:253-285 | every accepting branch puts the centre of the character strictly between the edges of the span |
| `CharGrid.InSpanExactly` | MinerU/mineru/utils/span_pre_proc.py:253-285 | a character belongs to a span exactly if its middle lies between 17 and 83 percent of the height and its centre is inside across, or it can end a line and begins within one height of the right edge, or it can start one and ends within one height of the left edge |
| `CharGrid.StartMirrorsStop` | MinerU/mineru/utils/span_pre_proc.py:268-283 | starting a line is ending one seen in the mirror |
| `CharGrid.RowMonotone` | MinerU/mineru/utils/span_pre_proc.py:221-228 | dividing by the positive row height and truncating towards zero keeps the order |
| `CharGrid.BuildGrid` | MinerU/mineru/utils/span_pre_proc.py:218-224 | every row of the grid lists, in order, exactly the spans that reach into it |
| `CharGrid.RowSuffices` | MinerU/mineru/utils/span_pre_proc.py:226-236 | a span that accepts a character is listed in the row of its centre |
| `CharGrid.FindSpan` | MinerU/mineru/utils/span_pre_proc.py:226-236 | the first accepting span of all spans in order, or none if none accepts |
| `CharGrid.FillCharInSpans` | MinerU/mineru/utils/span_pre_proc.py:214-236 | every span receives exactly the characters whose first accepting span, scanning all spans by upper edge, it is |
| `Sorting.SortIsRight` | MinerU/mineru/utils/span_pre_proc.py:216 | the result is in order and a permutation |
| `Sorting.SortIsStable` | MinerU/mineru/utils/span_pre_proc.py:216 | elements with equal keys keep their order |
| `Intervals.MergeIntervals` | MinerU/mineru/utils/ocr_utils.py:136-150 | the same points, in intervals separated by gaps and ordered by start; non-empty and apart if the input intervals are non-empty |
| `Intervals.CutOneStep` | MinerU/mineru/utils/ocr_utils.py:160-175 | one mask keeps the account of points that are put out, masked or still ahead |
| `Intervals.RemoveIntervals` | MinerU/mineru/utils/ocr_utils.py:153-181 | for all masks the result has exactly the points of the original in no mask, as non-empty intervals; ordered and disjoint when the masks are well formed |
| `PageRanges.SplitPages` | MinerU/mineru/utils/pdf_image_tools.py:96-114 | one non-empty range per worker, consecutive, from the first to the last page exactly |
| `PageRanges.SortedResults` | MinerU/mineru/utils/pdf_image_tools.py:153-154 | sorting the results by first page leaves them in order |
| `PageRanges.LoadImagesFromPdf` | MinerU/mineru/utils/pdf_image_tools.py:55-160 | parallel rendering yields the images of one sequential pass if at least one thread is allowed and there is a page in the range, and fails otherwise |
| `PageRanges.LoadImagesCore` | MinerU/mineru/utils/pdf_image_tools.py:195-215 | the images of the pages from the first to the clamped last one |
| `CanvasPath.DroppedExactly` | ragflow/agent/canvas.py:453-469 | a component is dropped if and only if it is neither the begin nor a user fill-up, the path does not begin with a fill-up, and it refers to a component that is not on the path before it |
| `CanvasPath.AdmittedIsOrdered` | ragflow/agent/canvas.py:453-479 | a batch leaves everything before it in place and keeps every executed component behind its references |
| `CanvasPath.ReferencesComeFirst` | ragflow/agent/canvas.py:463-469 | if the path does not begin with a user fill-up, every executed component other than begin and user fill-up has all referenced components earlier in the history |
| `CanvasPath.Canvas.RunBatch` | ragflow/agent/canvas.py:435-479 | the loop with its pops leaves exactly the components that may run, in order, and nothing before the batch changes |
| `CanvasPath.SuccessorsByKind` | ragflow/agent/canvas.py:614-627 | an item at its end goes on behind its container, a decision into its branches, a container to its first component, an exit behind its loop, the last in a container back to the first, all others downstream |
| `CanvasPath.ControlStaysNested` | ragflow/agent/canvas.py:614-627 | in a workflow where downstream and branches stay inside a container, a container is entered only from itself and left only from an item at its end or an exit |
| `CanvasPath.RepeatsAreSkipped` | ragflow/agent/canvas.py:599-612 | nothing that is appended repeats the entry before it |
| `CanvasPath.OthersAreAppended` | ragflow/agent/canvas.py:599-612 | without repetitions everything is appended |
| `CanvasPath.ProcessedIsExact` | ragflow/agent/canvas.py:572-627 | whatever the results, everything that follows a component of the batch (its exception branch, or its successors by kind) is on the path from the batch on, nothing else is added, and nothing before changes |
| `CanvasPath.Canvas.PostProcess` | ragflow/agent/canvas.py:513-627 | the loop over the batch extends the path step by step, skipping a repeated last entry except for exception branches; an error is reported exactly if some component failed with neither a branch nor a default |
| `CanvasPath.Canvas.Round` | ragflow/agent/canvas.py:500-648 | one round: the history grows by exactly the admitted components and stays the beginning of the path; the run fails exactly if some executed component failed without remedy, and then the path is the history before the round; it hands over exactly if a user fill-up is pending, and then the path is the pending part, user fill-ups first |
| `CanvasPath.Canvas.Run` | ragflow/agent/canvas.py:423-649 | over any number of rounds the history is what the run began with followed by the executed components, ordered by their references |
| `CanvasPath.HandOverKeepsAll` | ragflow/agent/canvas.py:634-648 | handing over to a user fill-up reorders the pending components and loses none |
| `CanvasPath.ChosenKeepsOrder` | ragflow/agent/canvas.py:634-648 | user fill-ups keep their order among themselves, and so do the others |

## Left out

- CanvasPath.Canvas.Run: stops after a given number of rounds, because a workflow may loop for ever; the claims hold for every number of rounds.
- CanvasPath.Canvas.Round: does not say that a referenced component has finished before, because components of one batch run concurrently and count as earlier.
- CharGrid.FillCharInSpans: asks for a positive median height; zero is a division error in the code, and negative heights do not come from spans that can accept a character.
- DistanceMatching.Matcher.TieUpCategoryByDistance: claims the partition, and which attachments follow the first loop, only while the numbers of subjects and objects do not collide, that is for up to 10000 subjects or without objects.
- HtmlRoundTrip.ColumnCountersAgree: asks for row spans of at least 1 and column spans of at least 0; `HtmlRoundTrip.CountersDifferOnZeroRowspan` shows why.
- Intervals.RemoveIntervals: claims disjoint results for masks that are not written backwards; the points are exact for all masks.
- TableMerge.Document.MergeTables: leaves the decision whether two neighbouring tables may be merged (captions, footnotes, widths, row comparison) to an arbitrary function of the break and its two tables, and tables are flat with one body each.
- Captions and footnotes of merged tables, and the text of the HTML that is written and parsed again between merges.
- Insertion order of dictionaries and graphs: vertices, neighbours and edges come in any order.
- Image processing, skeletonisation, the arrowhead density test, text recognition, page rendering and HTML parsing: parameters or values.
- A vertex near a box may be contracted away before the boxes are mapped; links are therefore stated for the contracted graph, and for the skeleton only that their ends are connected there.
- The textual form of OTSL and HTML: inputs are sequences of tokens and texts, outputs are rows of cells; escaping is not modelled, and texts contain no spelling of a token, at which the code would split them.
- Turning the characters of a span into text, contrast tests and the choice of spans for recognition.
- The later steps of layout filtering: nested tables, overlapping and low-confidence blocks.
- Cancellation, streaming, speech output and messages of a workflow run; a component's results, references and successors are parameters.
- Process pools, timeouts and termination of workers in page rendering.
- Rounding of floating-point numbers.
