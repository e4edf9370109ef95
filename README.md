# Berkeley map server core, in Dafny

This project models three parts of a map server: the graph store, the image rasterer and the router. Each part is stated and proved in Dafny.

- **Graph store (`GraphStore`, `graph_store.dfy`).** `GraphDB` keeps its vertices in a map from id to `Node`. Each `Node` holds a chain of vertices behind a head sentinel that carries the node's own id. The model keeps that chain as the sequence of ids after the head.
  - `adj(v, w)` appends `w` to the chain of `v` and `v` to the chain of `w`.
  - `adjacent(v)` walks a chain.
  - `clean()` drops every node whose chain is empty and decrements `node_number` once per drop.
  - `vertices()` lists the keys.
  - The constructor is modelled as the parser would drive it: `addnode` for each vertex record, `adj` for each edge, then `clean()`.
  - Every operation keeps the representation invariant `NodesValid`: each node is stored under its own id, as `addnode` files it, and its `tail` indexes the last vertex of its chain. `adjacent` and the router require only this invariant.
  - The proofs show that adjacency stays symmetric, that `clean()` leaves no empty chain and no dangling id, and that `vertices()` lists each key exactly once.
- **Name index (`NameIndex`, `name_index.dfy`).**
  - `cleanString` is modelled as a function.
  - The trie of names is a tree of `TrieNode` values held by the `Trie` class; `Trie.insert` replaces the root.
  - The proofs show that insert-then-search holds, that inserting a word already present changes nothing, that siblings stay distinct, and that `findbyprefix(p)` returns exactly the stored words strictly extending `p`.
- **Rasterer (`Rasterer`, `rasterer.dfy`).**
  - `constructTree` is modelled as a function building the depth-7 quadtree of tile names.
  - `getMapRaster` is modelled as a method built from these parts:
    - the `REQUIRED_RASTER_REQUEST_PARAMS` check;
    - the zoom-depth loop and its cap at level 7;
    - the two descents to the corner tiles;
    - the digit-stepping loops on a `char` array that name the grid;
    - the `img/…png` rewrite.
  - Tile names are read as binary row and column numbers. A right step adds one to the column and a down step adds one to the row. As a result, the cells of a grid that fits the map have distinct names.
- **Router (`Router`, `router.dfy`).** `Router.shortestPath` is modelled as written, not as the Dijkstra or A* search its class comment recommends.
  - Every round rescans the neighbours of `start`, and `start` never changes.
  - So the result is `[destination]` when the destination is a neighbour of `start`.
  - Otherwise the result is the empty list after 999999999 rounds, or an exception.
  - The Java distance function and the `closest` search are passed in as parameters: `dist` and the two vertex ids.

Java `double`s are modelled as Dafny `real`s. Java `null`s and exceptions escaping a method are modelled as `Option.None`, or as `Response.Thrown` for `getMapRaster`.

## Model

| member | source | states |
|---|---|---|
| NameIndex.CleanString | src/main/java/GraphDB.java:66-68 | the cleaned string is no longer than the input and holds only lower-case ASCII letters and blanks |
| NameIndex.CleanStringAppend | src/main/java/GraphDB.java:66-68 | cleaning a concatenation is concatenating the cleaned parts |
| NameIndex.CleanStringInOrder | src/main/java/GraphDB.java:66-68 | each input character contributes at its own place: its lower-case form if it is a letter or blank, otherwise nothing, so kept characters stay in order |
| NameIndex.CleanStringFixesClean | src/main/java/GraphDB.java:66-68 | a string that is already clean is unchanged |
| NameIndex.CleanStringIdempotent | src/main/java/GraphDB.java:66-68 | cleaning twice equals cleaning once |
| NameIndex.FirstChild | src/main/java/GraphDB.java:244-252 | the child found is the first, in list order, that carries the character; none means no child carries it |
| NameIndex.SubNode | src/main/java/GraphDB.java:244-252 | subNode returns a child carrying the character, and null exactly when no child carries it |
| NameIndex.ReachAppend | src/main/java/GraphDB.java:273-285 | walking `p + s` from a node is walking `p`, then `s` |
| NameIndex.ReachDistinct | src/main/java/GraphDB.java:273-285 | every node reached from a trie with distinct siblings has distinct siblings |
| NameIndex.EmptyNodeHoldsNothing | src/main/java/GraphDB.java:238-242 | a fresh node holds no word, not even the empty one |
| NameIndex.InsertPathContains | src/main/java/GraphDB.java:298-311 | after the insert loop, the words held are exactly the earlier ones plus the inserted word; a proper prefix of the word is not marked |
| NameIndex.InsertPathDistinct | src/main/java/GraphDB.java:298-311 | the insert loop never creates two siblings with the same character |
| NameIndex.NodeFindByPrefix | src/main/java/GraphDB.java:254-263 | Trienode.findbyprefix returns the depth-first, child-order list of marked descendants, each spelled from the prefix |
| NameIndex.CompletionsMember | src/main/java/GraphDB.java:254-263 | with distinct siblings, a word is listed iff it strictly extends the prefix and the node holds its remainder |
| NameIndex.PrefixedMember | src/main/java/GraphDB.java:287-296 | Trie.findbyprefix(p) lists exactly the held words that strictly extend `p`; `p` itself is never listed |
| NameIndex.Trie.constructor | src/main/java/GraphDB.java:269-271 | the root is a blank node with no children and no end mark |
| NameIndex.Trie.Search | src/main/java/GraphDB.java:273-285 | search is true iff the path for the word exists and ends at a marked node |
| NameIndex.Trie.FindByPrefix | src/main/java/GraphDB.java:287-296 | the result is empty when the path for the prefix is missing, otherwise the completions below its node |
| NameIndex.Trie.Insert | src/main/java/GraphDB.java:298-311 | a held word leaves the trie unchanged; otherwise the root becomes the insert loop's result on the old root, so exactly the earlier words and the new one are held and siblings stay distinct |
| NameIndex.CompletionsNoDuplicates | src/main/java/GraphDB.java:254-263 | with distinct siblings, Trienode.findbyprefix lists no word twice |
| NameIndex.PrefixedNoDuplicates | src/main/java/GraphDB.java:287-296 | with distinct siblings, Trie.findbyprefix lists no word twice |
| NameIndex.ReachInsertPath | src/main/java/GraphDB.java:298-311 | inserting a word through an existing path rebuilds the node at the end of the path by inserting the rest of the word there |
| NameIndex.FreshChainPart | src/main/java/GraphDB.java:301-311 | a chain of new nodes holds exactly the one word it spells |
| NameIndex.InsertNewLast | src/main/java/GraphDB.java:254-311 | a word that opens a new branch below a node is listed after every completion listed before, because new children go at the end of the list |
| NameIndex.PrefixedInsertNewLast | src/main/java/GraphDB.java:287-311 | after inserting a word that opens a new branch below `p`, findbyprefix(p) gives the earlier results in their order followed by the new word |
| NameIndex.PrefixedInsertionOrder | src/main/java/GraphDB.java:287-311 | inserting "ab" then "ac" into a new trie makes findbyprefix("a") return ["ab", "ac"] |
| GraphStore.AdjLists | src/main/java/GraphDB.java:133-136 | adj appends `w` to the list of `v` and `v` to the list of `w` (both to one list when equal) and changes no other list |
| GraphStore.AdjKeepsSymmetric | src/main/java/GraphDB.java:133-136 | adj between two vertices keeps adjacency symmetric |
| GraphStore.AddEmptyKeepsSymmetric | src/main/java/GraphDB.java:50-52 | adding a node with an empty list under a new id keeps adjacency symmetric |
| GraphStore.OverwriteCanBreakClosure | src/main/java/GraphDB.java:50-52 | overwriting a listed node with a fresh one under the same id breaks symmetry, so addnode's last-write-wins matters |
| GraphStore.PruneLists | src/main/java/GraphDB.java:88-98 | clean keeps exactly the vertices with a non-empty list, with their lists unchanged |
| GraphStore.PruneKeepsClosed | src/main/java/GraphDB.java:88-98 | on symmetric adjacency, clean keeps symmetry and leaves every listed id a vertex |
| GraphStore.Node.constructor | src/main/java/GraphDB.java:172-178 | a new node's head holds its id, is its own tail, and lists no neighbour |
| GraphStore.Node.Neighbors | src/main/java/GraphDB.java:113-121 | the ids after the head number exactly as many as the vertices between head and tail |
| GraphStore.Node.InsertAdj | src/main/java/GraphDB.java:180-184 | insert_adj appends the id at the end of the list and nothing else changes |
| GraphStore.Node.Id | src/main/java/GraphDB.java:187 | id() is the id held by the head |
| GraphStore.Located | src/main/java/GraphDB.java:50-52 | addnode for each record in turn files every record under its own id |
| GraphStore.LocatedKeys | src/main/java/GraphDB.java:50-52 | the ids filed are exactly the ids the records carry |
| GraphStore.LocatedLast | src/main/java/GraphDB.java:50-52 | each id keeps a record that carries it and that no later record with the same id follows: the last write wins |
| GraphStore.Placed | src/main/java/GraphDB.java:50-52 | after the vertex records every filed id has an empty list |
| GraphStore.Coordinates | src/main/java/GraphDB.java:50-52 | after the vertex records every filed node has no name |
| GraphStore.Linked | src/main/java/GraphDB.java:133-136 | adj for each edge in turn keeps the set of vertices |
| GraphStore.LinkedSymmetric | src/main/java/GraphDB.java:133-136 | adj for each edge in turn keeps adjacency symmetric |
| GraphStore.BuildClosed | src/main/java/GraphDB.java:37-48 | the graph built from the records and edges, after clean(), is symmetric and every listed id is a vertex |
| GraphStore.GraphDB.LoadVertices | src/main/java/GraphDB.java:37-52 | addnode of a new node for each record leaves every filed id with an empty list and the coordinates of its last record |
| GraphStore.GraphDB.LoadEdges | src/main/java/GraphDB.java:133-136 | adj for each edge in turn leaves the lists of the built graph and changes no coordinate or name |
| GraphStore.GraphDB.Populate | src/main/java/GraphDB.java:37-48 | the parse leaves the lists of the built graph and the coordinates of each id's last record |
| GraphStore.GraphDB.Settle | src/main/java/GraphDB.java:88-98 | clean() on the parsed graph leaves the built graph's non-empty lists, symmetric and closed, each vertex with its last record's coordinates, and node_number at minus the number of ids removed |
| GraphStore.GraphDB.constructor | src/main/java/GraphDB.java:37-48 | the lists are those of the graph built from the vertex records and the edges, without the empty ones; so adjacency is symmetric, every listed id is a vertex and no vertex has an empty list; each vertex has the coordinates of the last record with its id and no name; node_number is minus the number of ids removed |
| GraphStore.GraphDB.AddNode | src/main/java/GraphDB.java:50-52 | the node is stored under its id, replacing any earlier one, and nothing else changes |
| GraphStore.GraphDB.Adj | src/main/java/GraphDB.java:133-136 | for two vertices the lists become AdjLists of the old ones; an unknown id changes nothing and reports failure; no node's coordinates or name change |
| GraphStore.GraphDB.Adjacent | src/main/java/GraphDB.java:113-121 | adjacent(v) is the list of `v` in insertion order, without the head; an unknown `v` throws |
| GraphStore.KeepNonEmpty | src/main/java/GraphDB.java:90-97 | the iteration keeps exactly the nodes whose head is not their tail, unchanged, and counts one removal per dropped node |
| GraphStore.GraphDB.Clean | src/main/java/GraphDB.java:88-98 | the kept vertices are exactly those with a non-empty list, unchanged, and node_number drops by the number removed |
| GraphStore.GraphDB.Vertices | src/main/java/GraphDB.java:101-110 | the result lists every vertex id exactly once and nothing else |
| GraphStore.GraphDB.Lat | src/main/java/GraphDB.java:161 | the stored latitude of a vertex; an unknown id throws |
| GraphStore.GraphDB.Lon | src/main/java/GraphDB.java:156-158 | the stored longitude of a vertex; an unknown id throws |
| GraphStore.GraphDB.AddTn | src/main/java/GraphDB.java:54 | the trie afterwards holds exactly its earlier words and the cleaned word; a new cleaned word is inserted by the insert loop, a held one changes nothing |
| GraphStore.GraphDB.AddName2Node | src/main/java/GraphDB.java:58-60 | the node is filed under the cleaned name, replacing any earlier entry |
| GraphStore.GraphDB.FindLocationByPrefix | src/main/java/GraphDB.java:75-81 | the names of the nodes filed under the trie's completions of the cleaned prefix, in order; it throws iff a completion has no node filed |
| Rasterer.Digit | src/main/java/Rasterer.java:41-45 | child `[row][col]` gets digit `1 + 2*row + col`, whose row and column bits are `row` and `col` |
| Rasterer.NameOfPosition | src/main/java/Rasterer.java:37-48 | two tile names of one depth with the same row and column numbers are equal |
| Rasterer.RightIsNextColumn | src/main/java/Rasterer.java:152-161 | a right step adds one to the column number, wrapping at the edge, and keeps the row number |
| Rasterer.DownIsNextRow | src/main/java/Rasterer.java:143-151 | a down step adds one to the row number, wrapping at the edge, and keeps the column number |
| Rasterer.RightNColumns | src/main/java/Rasterer.java:152-161 | `j` right steps add `j` to the column number, modulo the number of columns at that depth |
| Rasterer.RightNKeepsRow | src/main/java/Rasterer.java:152-161 | right steps keep the row number |
| Rasterer.DownNRows | src/main/java/Rasterer.java:141-151 | `i` down steps add `i` to the row number, modulo the number of rows at that depth |
| Rasterer.DownNKeepsColumn | src/main/java/Rasterer.java:141-151 | down steps keep the column number |
| Rasterer.StepRows | src/main/java/Rasterer.java:141-161 | `i` down steps and then `j` right steps add `i` to the row number, wrapping |
| Rasterer.StepColumns | src/main/java/Rasterer.java:141-161 | `i` down steps and then `j` right steps add `j` to the column number, wrapping |
| Rasterer.GridNameNumbers | src/main/java/Rasterer.java:138-162 | the cell in row `i`, column `j` names the tile `i` rows south and `j` columns east of the upper-left tile, wrapping at the map's edge |
| Rasterer.GridNameShape | src/main/java/Rasterer.java:138-162 | every cell's name has the upper-left name's length, the same characters after the first `level`, and quadrant digits before |
| Rasterer.GridNamesDistinct | src/main/java/Rasterer.java:138-162 | different cells of a grid no larger than the map at that depth hold different names |
| Rasterer.SubBox | src/main/java/Rasterer.java:41-45 | each child's box is a quarter of its parent's and keeps positive width and height |
| Rasterer.ConstructTree | src/main/java/Rasterer.java:37-48 | a subtree carries the given directory, level and box, and has no children iff its level is 7 |
| Rasterer.ConstructChildren | src/main/java/Rasterer.java:41-45 | the four children get directory parent + "1".."4", level parent + 1 and the matching quarter box |
| Rasterer.ConstructTreeWellFormed | src/main/java/Rasterer.java:37-48 | every constructed subtree has four children at each inner node, one level deeper, and positive boxes, and each node's name is its root's plus one digit per level |
| Rasterer.NewQuadTree | src/main/java/Rasterer.java:30-35 | the tree keeps imgRoot and depth 7; its head is "0" at level 0 over the map's box, well formed, and its four children are named "1".."4" with one more digit per level below |
| Rasterer.Quadrant | src/main/java/Rasterer.java:123-129 | the child a point falls into is one of the four |
| Rasterer.Follow | src/main/java/Rasterer.java:122-129 | the descent from a well-formed node ends at a well-formed node |
| Rasterer.Descend | src/main/java/Rasterer.java:122-125 | the descent loop returns the node the descent specification reaches |
| Rasterer.Route | src/main/java/Rasterer.java:123-128 | the child indices the descent for a point chooses, written as quadrant digits |
| Rasterer.FollowNamed | src/main/java/Rasterer.java:122-129 | in a subtree named digit by digit, the descent stops at exactly the requested level, on the root's name extended by one chosen digit per level |
| Rasterer.RenamedHeadDescent | src/main/java/Rasterer.java:30-35 | renaming the head "0" keeps the tree well formed; the descent then ends at the requested level on "0" for depth 0, otherwise on a name of `depth` digits |
| Rasterer.HeadDescent | src/main/java/Rasterer.java:30-35 | the head (directory "0") is well formed; descending to depth 0 stays at "0", otherwise it ends at level `depth` on a name of `depth` digits, whatever child is chosen |
| Rasterer.HalfLevel | src/main/java/Rasterer.java:114-117 | each depth halves the tile's longitude per pixel |
| Rasterer.BoundReached | src/main/java/Rasterer.java:115-118 | a depth whose tiles are still too coarse lies below a finite bound, so the depth loop ends |
| Rasterer.ZoomFrom | src/main/java/Rasterer.java:115-118 | the first depth from `k` whose tiles are fine enough, with every depth between still too coarse |
| Rasterer.ZoomLevel | src/main/java/Rasterer.java:113-118 | the least depth whose longitude per pixel is at most the query's |
| Rasterer.DepthFor | src/main/java/Rasterer.java:113-118 | the halving loop ends at the least fine-enough depth |
| Rasterer.RenderDepth | src/main/java/Rasterer.java:113-119 | the depth rendered never exceeds 7 |
| Rasterer.RightStop | src/main/java/Rasterer.java:154-156 | raising a '1' or '3' at position `k` and stopping completes a right step on the first `k + 1` characters |
| Rasterer.RightCarry | src/main/java/Rasterer.java:158 | lowering a '2' or '4' at position `k` and carrying leaves a right step still to be done on the first `k` characters |
| Rasterer.DownStop | src/main/java/Rasterer.java:146-147 | adding two at position `k` with a result up to '4' and stopping completes a down step on the first `k + 1` characters |
| Rasterer.DownCarry | src/main/java/Rasterer.java:146-148 | adding two and then subtracting four at position `k` leaves a down step still to be done on the first `k` characters |
| Rasterer.StepRight | src/main/java/Rasterer.java:153-159 | the in-place column step on the char buffer is a right step on its first `level` digits and leaves the rest |
| Rasterer.StepDown | src/main/java/Rasterer.java:145-149 | the in-place row step on the char buffer is a down step on its first `level` digits and leaves the rest |
| Rasterer.GridNameEast | src/main/java/Rasterer.java:152-161 | the next name along a row is one right step from the previous one |
| Rasterer.GridNameSouth | src/main/java/Rasterer.java:143-150 | the first name of a row is one down step from the first name of the row above |
| Rasterer.FillRow | src/main/java/Rasterer.java:152-161 | the inner loop fills row `i` with the grid names and changes no other row |
| Rasterer.FillGrid | src/main/java/Rasterer.java:138-162 | the `m` by `n` grid holds in each cell the name of the tile that many rows south and columns east |
| Rasterer.AddImagePaths | src/main/java/Rasterer.java:163-167 | each cell becomes "img/" + its old name + ".png" |
| Rasterer.RequiredParams | src/main/java/Rasterer.java:172-178 | a box that passes the check has positive width and height, and every box of positive size that overlaps the map passes |
| Rasterer.RequiredParamsAdmitsEastOfMap | src/main/java/Rasterer.java:172-178 | a box wholly east of the map also passes, because the east and north edges are not checked |
| Rasterer.Round | src/main/java/Rasterer.java:136-137 | Math.round gives the integer within one half of its argument, halves rounding up |
| Rasterer.RenderTiles | src/main/java/Rasterer.java:121-169 | the corner tiles' outer edges, the depth and the named grid of the rounded size are returned; a size below one throws |
| Rasterer.Rasterer.constructor | src/main/java/Rasterer.java:21-23 | the quadtree is the constructed tree over the map's box, with the head renamed "0" |
| Rasterer.Rasterer.GetMapRaster | src/main/java/Rasterer.java:100-178 | a missing corner throws; a failing box check gives query_success false and nothing else; otherwise the tiles at the capped zoom depth are rendered |
| Router.PickIsFirstBest | src/main/java/Router.java:24-30 | a round settles on the first neighbour of least score below 99999999, or on 0 when no score is below it |
| Router.PickIsNeighbor | src/main/java/Router.java:24-30 | the node a round settles on is a neighbour or 0 |
| Router.ScanNeighbors | src/main/java/Router.java:23-35 | the scan reaches the destination iff it is a neighbour and no earlier distance throws; otherwise it passes the node picked by the first-best rule |
| Router.LastAtIsNeighbor | src/main/java/Router.java:36-37 | after the first round, `last` is always a neighbour of `start` or 0 |
| Router.PassedAllVertices | src/main/java/Router.java:26-35 | a round without a fault and without the destination among the neighbours has found every neighbour, the destination and `last` to be vertices |
| Router.FaultBreaksRounds | src/main/java/Router.java:22-38 | a fault in any round before the bound, with the destination not a neighbour, means that not every round passes |
| Router.ShortestPath | src/main/java/Router.java:17-41 | the route is [destination] iff the destination is a neighbour of `start` and no distance throws first, and it is never [] when the destination is a neighbour; otherwise it is [] iff every round passes; it never has more than one element |

## Left out

- The SAX parsing and file I/O of the `GraphDB` constructor and the `GraphBuildingHandler` callbacks are not modelled. The constructor takes the parsed vertex records and edge pairs instead.
- GraphStore.GraphDB.constructor: assumes the parser delivers every vertex record before any edge, as OSM files order them. `BuildClosed` and the constructor's closure clause depend on this order; `OverwriteCanBreakClosure` shows that a later `addnode` for a listed id would break it.
- `Way`, `addway` and the `ways` map are not modelled, because no modelled operation reads them.
- `GraphDB.distance` is not modelled, since it uses floating-point `Math.sqrt`. The router receives it as the parameter `dist`.
- The distance stored in each `Vertix` by `insert_adj` is not modelled, because nothing reads it.
- `GraphDB.closest` is not modelled, since it compares floating-point roots and powers. The router receives the start and destination ids instead.
- `Long.parseLong` and `Double.parseDouble` in `Node` are not modelled; ids and coordinates are given as numbers.
- Java `double`s are modelled as reals, so rounding, NaN and overflow of the `(int)` cast are not modelled.
  - `Math.round` is modelled as `floor(x + 0.5)`.
  - A zero viewport width gives depth 0, as IEEE infinity does in the Java.
- GraphStore.GraphDB.Adj: reports failure and changes nothing on an unknown id, where the Java throws.
- GraphStore.GraphDB.constructor: an edge with an end that is not a vertex is skipped (see `Linked`). In the Java, `adj` throws there and the exception escapes the constructor. `GraphBuildingHandler`, which decides which edges reach `adj`, is not part of this model.
- `node_number` is never incremented by `addnode`, so it goes negative after `clean()`. This is modelled as written.
- The trie nodes are modelled as values, not shared objects, so aliasing of `Trienode`s is not modelled; none of the code shares them.
- NameIndex.CleanString: models the `[^a-zA-Z ]` filter and `toLowerCase` on ASCII only; locale-dependent lower-casing is not modelled.
- Rasterer.Rasterer.GetMapRaster: requires a non-negative viewport width `w` only when the four corners are present and the box passes the check. That is the one case where the Java depth loop reads `w`, and with a negative width it never ends.
- The front-end result `HashMap` is modelled as the `Response` datatype, and the existence of the image files is not modelled.
- `imgRoot` is stored but not used, as in the Java.
- In the router, `None` stands for any exception escaping, such as a distance to an id that is not a vertex. The model does not distinguish between exception kinds.
