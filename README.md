# Netlist extraction and vectorizing, modelled in Dafny

This project models the core of a chip-reverse-engineering tool chain. The tools turn die photographs into a transistor-level netlist:

- **Vectorizer** (`pngtrace.cpp`). It reads the alpha channel of a layer image into a chunked pixel store. It walks the outline of each lit region from corner to corner, using a table of rules keyed by the 5 x 5 neighbourhood of a pixel. It writes each outline as a list of corners closed by `-1,-1`, then erases the region with a flood fill. The rule table is stored as packed 32-bit entries.
- **SVG path converter** (`convertsvg.php`, lines 58-90). It turns the `d` attribute of a hand-drawn path into the same corner-list format.
- **Netlist extractor** (`netlist.cpp`, on the geometry kernel of `polygon.h`):
  - It loads the VCC and GND planes and the metal, polysilicon and diffusion layers as polygons, plus the via, buried-contact and transistor outlines.
  - It gives every electrically connected group of polygons one id. It does this in a VCC pass, a GND pass, a metal pass, a polysilicon pass and a diffusion pass. Each connector that touches two layers either stamps or merges ids.
  - It finds each transistor's gate and its two diffusion terminals, and it discards pull-up resistors. It then writes the transistor table and the segment table.
- **Connector audit** (`check.cpp`). It reports every via and buried contact that does not touch exactly two nodes.

The model follows the source's own form:

- **Geometry.** The polygon is a class whose methods update its vertex list. Its loops are proved against pure ring functions (crossing, ray parity, overlap, bounding box).
- **Extraction.** It is a class (`Netlist.Extraction`) whose fields are the node list, the pending connectors and the id counter. Each phase is a method, proved against the pure functions of the passes in `Connectivity` and `Devices`.
- **Whole program.** `Program.Extract` runs the phases in order. It is proved equal to `Program.Run`, and the end-to-end properties are proved about `Run`.
- **Vectorizer image.** It is a class over arrays of chunk bytes, coupled to a value-level plane (`Raster.Plane`). The scan, tracing and flood fill are proved against `Corners.Scan`, `Corners.TraceLines` and `Raster.Erased`.
- **Rule file, PNG sample and SVG path.** The rule file round-trips. The PNG sample extraction is proved to read the sample the bit layout puts at a pixel. The SVG path loop is proved against a recursive conversion function.

Where the documented design of the extractor and the code differ, the model follows the code:

- **No short-circuit detection.** A merge that joins the VCC and GND nets is not detected (`netlist.cpp:190-201`).
- **Merge direction.** A merge renumbers the outer node's net into the id the inner node already had. It does not keep the smaller of the two ids (`netlist.cpp:196-200`, `255-259`).
- **Terminal count.** The transistor terminals are the ids of every diffusion node touching a probe, one entry per node, not per distinct id. A transistor has two terminals exactly when two diffusion nodes touch it (`netlist.cpp:336-341`).
- **Order dependence.** A connector is consumed by the first outer node of the pass that meets it, so the nets can depend on the order of same-layer nodes. Take a via that touches metal nodes A and B and a polysilicon node P. P joins the net of whichever of A and B comes first, and the via is gone when the other is processed (`netlist.cpp:171-207`; `Connectivity.SweepTakes`, `Connectivity.JoinPassCarries`).
- **No channel geometry.** The transistor loop computes no width, length or segment count. It only finds the gate and the terminals, and it marks pull-ups.

Coordinates and ids are mathematical integers. Files are modelled as sequences of parsed lines, images as byte planes, and outputs as the rows or lines the program writes.

## Model

| member | source | states |
|---|---|---|
| Geometry.Intersect | polygon.h:31-50 | the crossing test is true exactly when the two lines are not parallel (nonzero determinant), neither parameter touches 0 or 1 while the other lies in [0, 1], and both parameters lie strictly between 0 and 1, compared exactly on the integer numerators |
| Geometry.ParallelNeverCrosses | polygon.h:33-35 | parallel or collinear segments (zero determinant) never cross |
| Geometry.EndpointNeverCrosses | polygon.h:43-44 | a parameter equal to 0 or 1 while the other lies in [0, 1] (a touch at an endpoint) is not a crossing |
| Geometry.CrossingPointIsShared | polygon.h:37-41 | the two parameters name the same point: the point at NumA/Det along p1-p2 equals the point at NumB/Det along q1-q2, so a crossing is a common point strictly inside both segments |
| Geometry.IntersectSymmetric | polygon.h:31-50 | swapping the two segments does not change the verdict |
| Geometry.IntersectTranslate | polygon.h:31-50 | the verdict depends only on coordinate differences: translating all four endpoints leaves it unchanged |
| Geometry.CrossCount | polygon.h:77-83 | the count of crossed edges is below the number of edges examined, or zero |
| Geometry.CrossCountNone | polygon.h:77-83 | when no edge examined is crossed, the count is zero |
| Geometry.CrossCountPrefix | polygon.h:77-83 | the count over the first n vertices depends on those vertices only |
| Geometry.CrossCountJoin | polygon.h:77-83 | the edges of two joined vertex lists are those of each list plus the one edge joining them |
| Geometry.CrossCountClosed | polygon.h:66-83 | the closed ring of two joined lists counts the edges of each list and the two edges joining them |
| Geometry.CrossCountTranslate | polygon.h:71-85 | moving the ring and the ray together keeps the number of crossed edges |
| Geometry.Inside | polygon.h:71-85 | a point can be inside only a ring with at least one edge (two vertices) |
| Geometry.InsideTranslate | polygon.h:71-85 | moving a ring and a point together keeps whether the point is inside |
| Geometry.InsideRotate | polygon.h:66-85 | closing the vertex list from any other starting vertex keeps whether a point is inside: the closed ring has the same edges |
| Geometry.OverlapsRing | polygon.h:87-106 | two rings can overlap only when each has at least one edge |
| Geometry.OverlapsTranslate | polygon.h:87-106 | moving two rings together keeps whether they overlap |
| Geometry.Translate | polygon.h:108-115 | moving a ring keeps its length and moves every vertex by the same vector |
| Geometry.Bounds | polygon.h:117-128 | a ring without an edge has the empty box; the box of a closed ring contains its first (repeated) vertex |
| Geometry.BoundsUpToEncloses | polygon.h:117-128 | the box grown over vertices 1 .. n-1 contains each of them and each of its four sides is attained by one of them |
| Geometry.BoundsEnclose | polygon.h:117-128 | the box of a ring is the tight box of all its vertices but vertex 0 (which the closing vertex repeats) |
| Geometry.BoundsUpToTranslate | polygon.h:108-128 | growing the box over a moved ring gives the old box moved |
| Geometry.BoundsTranslate | polygon.h:108-128 | the box of a moved ring is the old box moved by the same vector |
| Geometry.Coords | polygon.h:129-141 | a ring flattens to two numbers per vertex |
| Geometry.CoordsAt | polygon.h:129-141 | the flattened text holds x then y of each vertex, in order, two entries per vertex |
| Geometry.Polygon.constructor | polygon.h:56 | a new polygon has no vertices |
| Geometry.Polygon.Copy | polygon.h:57-61 | the copy constructor gives a polygon with the same vertex list |
| Geometry.Polygon.Add | polygon.h:62-65 | appends one vertex and changes nothing else |
| Geometry.Polygon.Finish | polygon.h:66-69 | repeats the first vertex at the end, so the ring is closed |
| Geometry.Polygon.IsInside | polygon.h:71-85 | the loop returns ray-parity containment: an odd number of edges crossed by the ray to (x+100000, y+100) |
| Geometry.Polygon.Overlaps | polygon.h:87-106 | the two loops return true exactly when a vertex of the other ring (from index 1) is inside this one, or some edge of this ring crosses some edge of the other |
| Geometry.Polygon.Move | polygon.h:108-115 | every vertex is translated by (x, y) and nothing else changes |
| Geometry.Polygon.BRect | polygon.h:117-128 | the loop returns the box of vertices 1 .. n-1, grown from the empty seed |
| Geometry.Polygon.ToString | polygon.h:129-141 | the output lists the coordinates of vertices 1 .. n-1, x then y |
| Geometry.BoxesApartSymmetric | polygon.h:154 | the bounding-box pre-test does not depend on which node asks |
| Geometry.Collide | polygon.h:152-157 | boxes apart in either order means no collision; otherwise the nodes collide exactly when the first node's ring overlaps the second's |
| Geometry.CollideTranslate | polygon.h:152-157 | moving both nodes' rings and boxes by one vector keeps whether they collide |
| Loader.Place | netlist.cpp:50-52 | a vertex is doubled and flipped against 12512; connector-layer vertices land on odd coordinates and all others on even ones, and the original pair is recovered by halving |
| Loader.PlaneAndConnectorVerticesDiffer | netlist.cpp:50-52 | a vertex of a plane layer never coincides with a vertex of a connector layer |
| Loader.CloseNode | netlist.cpp:38-47 | a `-1,-1` line makes a node with id 0, pull-up '-', the file's layer, the ring closed by repeating its first vertex, and the ring's bounding box |
| Loader.Load | netlist.cpp:16-56 | a file loads to one fresh node per `-1,-1` line, and fails with an unreadable-file error exactly when some line does not parse |
| Loader.LoadRing | netlist.cpp:38-53 | vertex lines followed by `-1,-1` produce exactly one node whose ring is the placed vertices plus the first one, and loading goes on from an empty polygon |
| Loader.LoadDropsUnclosed | netlist.cpp:28-55 | vertices after the last `-1,-1` produce no node |
| Loader.LoadFailsOnGarbled | netlist.cpp:30-37 | a line that does not parse makes the whole file fail, whatever came before it |
| Loader.ReadNodes | netlist.cpp:16-56 | the reading loop, which builds each polygon with the polygon methods, returns exactly `Load` of the file |
| Loader.Assemble | netlist.cpp:66-84 | a loaded chip has VCC plane, GND plane, metal, polysilicon and diffusion nodes in that order, each range on its own layer and fresh |
| Loader.LoadChip | netlist.cpp:66-84 | loading succeeds exactly when every line parses and each plane file holds one polygon; it names the VCC or GND plane count as the error when that is the first failure; the node list is the five files' nodes in order |
| Connectivity.FirstHit | netlist.cpp:183-204 | the search of the inner range for a connector returns an index inside the range, or none |
| Connectivity.FirstHitIsFirst | netlist.cpp:183-204 | the index found is the first node of the range that collides with the connector, and there is none exactly when no node of the range collides |
| Connectivity.FirstHitShapes | netlist.cpp:183-204 | which node a connector hits depends on geometry only, so it survives changes of ids and layers |
| Connectivity.Split | netlist.cpp:171-177 | the pool is divided into the connectors the outer node collides with and the rest, and their sizes add up to the pool's |
| Connectivity.SplitKeeps | netlist.cpp:171-177 | the two halves together are the pool, as a multiset |
| Connectivity.SplitSides | netlist.cpp:171-177 | every connector lands on the side its collision with the outer node says, and nothing new appears |
| Connectivity.Renumber | netlist.cpp:196-200 | renumbering keeps the length of the node list |
| Connectivity.RenumberAt | netlist.cpp:196-200 | node by node only the id changes, and only from the old id to the new one |
| Connectivity.RenumberMerges | netlist.cpp:196-200 | after a merge no node holds the old id, every node that held either id holds the new one, and every other node is unchanged |
| Connectivity.Connect | netlist.cpp:190-201 | connecting an inner node keeps the length of the node list |
| Connectivity.ConnectJoins | netlist.cpp:190-201 | a hit gives the inner node the outer node's id, or merges the two nets, so both end on one nonzero net and no net is split |
| Connectivity.Apply | netlist.cpp:190-201 | a hit keeps the length of the node list and gives the inner node the rail id, or the outer node's id after the join |
| Connectivity.ApplyOnlyIds | netlist.cpp:190-201 | a hit changes ids only: rings, boxes, layers and pull-up marks stay |
| Connectivity.Drain | netlist.cpp:178-207 | taking matched connectors from the back keeps the length of the node list |
| Connectivity.DrainOnlyIds | netlist.cpp:178-207 | draining changes ids only |
| Connectivity.DrainKeeps | netlist.cpp:178-207 | no connector is lost: every matched connector ends either carried back to the pool or consumed |
| Connectivity.DrainAppends | netlist.cpp:178-207 | what was carried or consumed before stays in front, in order |
| Connectivity.DrainSorts | netlist.cpp:178-207 | a connector is carried back exactly when it hits no inner node, and consumed when it hits one |
| Connectivity.FreshIdUnused | netlist.cpp:169-170 | the next fresh id is held by no node and is neither a rail id nor 0 |
| Connectivity.Claim | netlist.cpp:169-170 | an outer node without an id gets one |
| Connectivity.ClaimSpec | netlist.cpp:169-170 | an unassigned outer node takes the next fresh id and the counter advances by one; an assigned one keeps everything; ids stay known and nets only coarsen |
| Connectivity.DrainKeepsIdsKnown | netlist.cpp:178-207 | draining hands out no id other than 0, a rail or one already issued |
| Connectivity.DrainJoins | netlist.cpp:178-207 | draining for an outer node only joins nets, and leaves both ends of every consumed connector on the outer node's net |
| Connectivity.DrainStampsRail | netlist.cpp:107-125 | in a power-plane pass ids change only to the rail, and every consumed connector leaves the node it hit on the rail |
| Connectivity.Sweep | netlist.cpp:171-207 | one sweep of an outer node keeps the length of the node list |
| Connectivity.SweepKeeps | netlist.cpp:171-209 | a sweep loses no connector: the carried and the consumed make up the pool |
| Connectivity.SweepOnlyIds | netlist.cpp:171-209 | a sweep changes ids only |
| Connectivity.SweepCarries | netlist.cpp:171-209 | a connector a sweep carries was in the pool, and if it touches the outer node it hits no inner node |
| Connectivity.SweepTakes | netlist.cpp:171-209 | every consumed connector was in the pool, touches the outer node and hits an inner node |
| Connectivity.SweepJoins | netlist.cpp:171-209 | a sweep for an outer node only joins nets, and each consumed connector's two ends end on one net |
| Connectivity.SweepStamps | netlist.cpp:96-162 | a sweep for a rail changes ids only to the rail and puts each hit node on it |
| Connectivity.SweepIdsKnown | netlist.cpp:96-209 | a sweep hands out no unknown id |
| Connectivity.PlanePass | netlist.cpp:96-128 | a plane pass keeps the node count and the fresh-id counter |
| Connectivity.PlanePassIds | netlist.cpp:96-128 | after a plane pass the plane holds the rail id, and other ids changed only to the rail |
| Connectivity.PlanePassConserves | netlist.cpp:96-128 | a plane pass loses no connector and only appends to the consumed ones |
| Connectivity.PlanePassCarries | netlist.cpp:96-128 | a connector left in the pool touches the plane only if it hits no inner node |
| Connectivity.PlanePassConsumes | netlist.cpp:107-125 | every consumed connector came from the pool, touches the plane, and put the node it hit on the rail |
| Connectivity.Protect | netlist.cpp:270-271 | retagging keeps the length of the node list |
| Connectivity.JoinStep | netlist.cpp:165-210 | one iteration of a join pass keeps the node count and only appends to the consumed connectors |
| Connectivity.JoinStepIds | netlist.cpp:165-272 | one iteration keeps ids known, only joins nets, assigns its outer node, and changes no layer except the protection tag of a polysilicon node left on ground |
| Connectivity.JoinStepShapes | netlist.cpp:165-210 | one iteration keeps every ring and box |
| Connectivity.JoinStepConserves | netlist.cpp:165-210 | one iteration loses no connector |
| Connectivity.JoinStepCarries | netlist.cpp:171-209 | a connector left in the pool was there before, and touches the outer node only if it hits no inner node |
| Connectivity.JoinStepConsumes | netlist.cpp:178-207 | every connector consumed by the iteration came from the pool, touches its outer node, and joins its inner node to the outer node's net |
| Connectivity.JoinPass | netlist.cpp:165-210 | a join pass keeps the node count and only appends to the consumed connectors |
| Connectivity.JoinPassIds | netlist.cpp:164-272 | a join pass keeps ids known, only joins nets, leaves every outer node assigned, and changes layers only of outer nodes, only to protection |
| Connectivity.JoinPassConserves | netlist.cpp:165-210 | a join pass loses no connector |
| Connectivity.JoinPassCarries | netlist.cpp:165-210 | a connector still in the pool was there before, and if it touches any outer node it hits no inner node |
| Connectivity.JoinPassConsumes | netlist.cpp:165-210 | every consumed connector touches an outer node, hits an inner node, and that inner node is on the outer node's net when the pass ends |
| Connectivity.RetagStep | netlist.cpp:288-294 | one diffusion step changes no node but its own |
| Connectivity.RetagPass | netlist.cpp:286-295 | the diffusion pass changes no node outside its range |
| Connectivity.RetagPassIds | netlist.cpp:286-295 | after the diffusion pass every diffusion node is assigned, assigned nodes keep their ids, ids stay known, and only ids and layer tags change |
| Connectivity.RetagStepIds | netlist.cpp:288-294 | one diffusion node ends assigned, and assigned nodes keep their ids |
| Connectivity.RetagPassLayers | netlist.cpp:291-294 | every diffusion node on the VCC net is tagged VCC diffusion, on the GND net GND diffusion, and keeps its layer otherwise |
| Connectivity.RetagPassFresh | netlist.cpp:289-290 | unassigned diffusion nodes receive distinct fresh ids, increasing in node order |
| Netlist.Text | polygon.h:129-141 | the printed coordinate list of a ring has two entries per vertex after the first |
| Netlist.Unhit | netlist.cpp:211-221 | the unhit-connector report has one line per pending connector |
| Netlist.UnhitAt | netlist.cpp:211-221 | the unhit-connector report has one line per pending connector, the last connector first, each its coordinate list |
| Netlist.Settle | netlist.cpp:391-396 | a settled transistor keeps its id, gate and terminals, has every vertex moved by (-1, -1), and has the box of the moved ring |
| Netlist.KeptRows | netlist.cpp:408-415 | the transistor table has at most one row per transistor |
| Netlist.KeptRowsCount | netlist.cpp:408-415 | the table has exactly the transistors with a nonzero id: pull-ups are skipped and no row has id 0 |
| Netlist.KeptRowsNumbered | netlist.cpp:408-415 | when kept transistors carry consecutive ids from the base, the table's rows are numbered from the base without gaps |
| Netlist.SegRows | netlist.cpp:427-434 | the segment table has one row per node from index 2 on (the two planes are skipped), with that node's id, pull-up mark, layer and coordinate text |
| Netlist.Extraction.constructor | netlist.cpp:60-94 | the extraction starts from the loaded chip and its vias, with no consumed connector and the fresh-id counter at 10002 |
| Netlist.Extraction.FirstCollider | netlist.cpp:183-204 | the inner scan returns the first node of the range that the connector collides with |
| Netlist.Extraction.SplitPool | netlist.cpp:171-177 | the loop sorts the pending connectors into matched and unmatched exactly as `Split` does |
| Netlist.Extraction.MergeNet | netlist.cpp:196-200 | the loop over all nodes moves every node on the old net to the new id and changes nothing else |
| Netlist.Extraction.Hit | netlist.cpp:190-201 | a hit stamps the rail id, or gives or merges the outer node's id, as `Apply` says |
| Netlist.Extraction.SweepPool | netlist.cpp:171-209 | one sweep of an outer node leaves the nodes, the pool and the consumed connectors as `Sweep` says |
| Netlist.Extraction.SeedPlane | netlist.cpp:96-162 | a power-plane block gives the plane its rail id and ends in the state `PlanePass` describes |
| Netlist.Extraction.ResolveNode | netlist.cpp:165-210 | one outer node of the metal or polysilicon pass ends in the state `JoinStep` describes |
| Netlist.Extraction.ResolvePass | netlist.cpp:164-272 | the metal and polysilicon passes end in the state `JoinPass` describes |
| Netlist.Extraction.ReportUnhit | netlist.cpp:211-221 | the unmatched connectors are reported from the back and the pool is emptied |
| Netlist.Extraction.LoadContacts | netlist.cpp:223 | the buried contacts become the pending connectors |
| Netlist.Extraction.RetagDiffusion | netlist.cpp:285-295 | the diffusion loop ends in the state `RetagPass` describes and touches nothing else |
| Netlist.Extraction.GateOf | netlist.cpp:315-323 | the gate is the id of the first polysilicon node the transistor collides with, or none |
| Netlist.Extraction.TerminalIds | netlist.cpp:324-341 | the terminal ids are those of the diffusion nodes touching the outline nudged left, right, up or down, in node order |
| Netlist.Extraction.MarkNet | netlist.cpp:363-367 | every node from metal to diffusion on the gate's net is marked '+', nothing else changes |
| Netlist.Extraction.ClassifyOne | netlist.cpp:313-382 | one transistor takes the next id and is classified as `ClassifyStep` says: a pull-up marks its gate net, gives its id back and is counted |
| Netlist.Extraction.ClassifyAll | netlist.cpp:297-384 | the transistor loop restarts ids at 10000 and classifies the outlines in order, as `Classify` says |
| Netlist.Extraction.SettleAll | netlist.cpp:391-396 | every transistor's ring is moved by (-1, -1) and its box recomputed; nothing else changes |
| Netlist.Extraction.TransistorTable | netlist.cpp:408-415 | the transistor table is `KeptRows` of the transistors |
| Netlist.Extraction.SegmentTable | netlist.cpp:429-434 | the segment table is `SegRows` of the nodes |
| Devices.TouchesNear | netlist.cpp:324-341 | a diffusion node touches a nudged outline only if its box meets the outline's box grown 4 units left and down and 2 units right and up |
| Devices.Probe | netlist.cpp:324-335 | a probe copy of an outline keeps its id, pull-up mark and layer, has every vertex moved by the nudge, and has the box of the moved ring |
| Devices.Touches | netlist.cpp:336-341 | a node touches a nudged outline only when both have at least one edge |
| Devices.Gate | netlist.cpp:315-323 | an empty polysilicon range gives no gate; which node gives it is `Devices.GateIsFirst` |
| Devices.GateIsFirst | netlist.cpp:315-323 | there is a gate exactly when some polysilicon node collides with the outline, and it is the first such node's id |
| Devices.Diffs | netlist.cpp:336-341 | at most one terminal id per diffusion node |
| Devices.DiffsMembers | netlist.cpp:336-341 | an id is listed exactly when some diffusion node touching a nudged copy of the outline holds it |
| Devices.Terminals | netlist.cpp:342-381 | with any count of terminals other than two, both terminals are GND and it is no pull-up; with two, the one tied to the gate comes first, and it is a pull-up exactly when the gate is tied to one terminal, the other is VCC, and the gate is not GND |
| Devices.MarkPullups | netlist.cpp:363-367 | marking keeps the length of the node list |
| Devices.MarkPullupsAt | netlist.cpp:363-367 | exactly the nodes of the range on the gate's net get '+'; every other field and node is unchanged |
| Devices.ClassifyStep | netlist.cpp:313-382 | one transistor is appended and the node count is kept |
| Devices.Classify | netlist.cpp:310-383 | one transistor is recorded per outline and the node count is kept |
| Devices.Kept | netlist.cpp:412 | the number of kept transistors is at most the number recorded |
| Devices.ClassifyStepAppends | netlist.cpp:313-382 | each iteration appends the outline as a pull-up with id 0, or as a kept transistor with the next id |
| Devices.ClassifyNumbers | netlist.cpp:299-383 | the loop keeps every outline, numbers kept transistors consecutively from the start id, gives pull-ups id 0, counts them, and advances the counter by the number kept |
| Devices.KeptIdsIncrease | netlist.cpp:313-370 | kept transistor ids strictly increase along the list, so they are distinct |
| Devices.KeptGrows | netlist.cpp:412 | a kept transistor at position i makes the kept count grow past i |
| Devices.ClassifyMarks | netlist.cpp:356-373 | the loop changes only pull-up marks, only from metal to diffusion, and a node ends marked exactly when it was marked before or is on the gate net of some pull-up |
| Devices.DiffsIgnorePullups | netlist.cpp:336-341 | marking pull-ups does not change any later transistor's terminal list |
| Devices.GateIgnoresPullups | netlist.cpp:315-323 | marking pull-ups does not change any later transistor's gate |
| Devices.ClassifyJudges | netlist.cpp:310-383 | every recorded transistor carries the gate and terminals judged on the node list the loop started from, and has id 0 exactly when it was judged a pull-up |
| Program.ViaPhase | netlist.cpp:94-210 | the power planes and the metal pass keep the number of nodes |
| Program.ContactPhase | netlist.cpp:223-272 | the polysilicon pass with the buried contacts keeps the number of nodes |
| Program.Phases | netlist.cpp:94-384 | the passes in the program's order keep the number of nodes |
| Program.Written | netlist.cpp:400-437 | the transistor table has at most one row per transistor, the segment table one row per node but the two planes, and each report one line per pending connector |
| Program.Run | netlist.cpp:58-441 | a successful run loaded every file; its transistor table has at most one row per outline read, and its segment table one row per loaded node but the two planes |
| Program.Settled | netlist.cpp:391-396 | moving the transistors back keeps their number |
| Program.Extract | netlist.cpp:58-441 | running the phases in the program's order writes exactly the tables, pull-up count and unhit reports `Program.Run` defines, or stops with the same load error |
| Program.LoadedIdsKnown | netlist.cpp:40-46 | every node of a freshly loaded chip is unassigned |
| Program.ViaPhaseIds | netlist.cpp:96-210 | after the planes and the metal pass only ids have changed, every id is known to the counter, and both planes and every metal node are assigned |
| Program.ViaPhaseConserves | netlist.cpp:94-221 | no via is lost by the planes and the metal pass: the pending vias and the consumed ones together are the vias read |
| Program.RetagFacts | netlist.cpp:223-295 | the polysilicon and diffusion passes leave every node assigned, rings and boxes unchanged, and diffusion tagged by its rail |
| Program.PhasesFinish | netlist.cpp:94-384 | at the end every node is assigned and keeps its ring and box, metal stays metal, polysilicon is polysilicon or protection, diffusion is tagged by its rail, the planes are not pulled up and any other node is pulled up exactly when it is on the gate net of a discarded pull-up |
| Program.LoopFinishes | netlist.cpp:297-384 | the transistor loop turns the diffusion pass's facts into the finished ones |
| Program.KeptSameIds | netlist.cpp:391-415 | moving transistors keeps which ones are written |
| Program.TallyNumbers | netlist.cpp:297-415 | the transistor table is numbered 10000, 10001, ... without gaps, and its rows and the pull-ups together account for every outline |
| Program.SettledNumbers | netlist.cpp:391-415 | moving the transistors keeps the numbering of the table |
| Program.PoolReported | netlist.cpp:211-283 | every pending connector gets one report line, and every line is the text of a connector that was read |
| Program.RunTrace | netlist.cpp:58-441 | a run that succeeds loaded the chip and the three connector files and went through the passes in order |
| Program.ContactPhaseConserves | netlist.cpp:223-283 | no buried contact is lost by the polysilicon pass |
| Program.RunSegments | netlist.cpp:420-437 | every written segment row has an id, its layer tag is one of the six, and rows tagged VCC or GND diffusion carry the VCC or GND id |
| Program.FinishedRows | netlist.cpp:427-434 | the segment rows of finished nodes have ids and their rail tags agree with their ids, and a row is marked '+' exactly when its node is on the gate net of a discarded pull-up |
| Program.RunNumbers | netlist.cpp:297-415 | a run's transistor table is numbered 10000, 10001, ... without gaps, and with the pull-up count accounts for every outline read |
| Program.RunAccounts | netlist.cpp:211-283 | every line of a run's two reports is the text of a via or buried contact it read, at most one line per connector |
| Program.PhasesReport | netlist.cpp:211-283 | the two reports after the passes are of connectors that were read |
| Audit.Judge | check.cpp:94-98 | a connector is sound exactly with two hits, goes nowhere exactly with one, and otherwise is reported with its hit count |
| Audit.Assess | check.cpp:85-98 | a connector draws no complaint exactly when it hits two nodes, and otherwise one complaint naming its index and coordinates |
| Audit.Hits | check.cpp:85-93 | the count over a range is at most its length, and zero over an empty range |
| Audit.HitsCountColliders | check.cpp:85-93 | the count is the number of colliding node indices |
| Audit.HitsSplit | check.cpp:88-111 | counting over two adjacent ranges adds up |
| Audit.HitsNone | check.cpp:85-93 | the count is zero exactly when no node of the range collides |
| Audit.CountHits | check.cpp:85-93 | the counting loop computes the number of colliding nodes of the range |
| Audit.Complaints | check.cpp:82-99 | there are at most as many complaints as connectors |
| Audit.ComplaintsJustified | check.cpp:82-99 | every complaint names a connector of the file that is not sound, with its verdict |
| Audit.ComplaintsComplete | check.cpp:82-99 | every connector that is not sound is named by a complaint |
| Audit.ComplaintsOrdered | check.cpp:82-99 | complaints follow the file order, each connector at most once |
| Audit.CheckConnectors | check.cpp:82-122 | the loop over the connectors produces exactly the complaints `Audit.Complaints` defines, whose meaning `Audit.InspectionExact` states |
| Audit.Inspect | check.cpp:50-125 | the audit run produces exactly the report `Audit.Inspection` defines, or its plane-count error |
| Audit.Inspection | check.cpp:50-125 | the audit fails only on the chip's layout, never on an unreadable line, and a successful audit names at most as many vias and contacts as were read |
| Audit.InspectionFails | check.cpp:59-70 | the audit fails exactly when the VCC or GND file does not hold exactly one polygon, and it names the first file that does not |
| Audit.InspectionExact | check.cpp:79-122 | a successful audit names exactly the vias (counted over both planes, metal, polysilicon and diffusion) and buried contacts (counted over polysilicon and diffusion) that do not touch two nodes, in file order |
| Audit.ViaHitsSplit | check.cpp:87-111 | a via's count over the chip splits into the planes, metal, and the range buried contacts are counted over |
| RuleFile.Pack | pngtrace.cpp:75 | unpacking a packed entry gives back its mask and direction, and the top four bits are clear |
| RuleFile.Unpack | pngtrace.cpp:64-65 | an entry below 2^28 is its mask plus its direction times 2^24: the two fields split it without loss |
| RuleFile.Loaded | pngtrace.cpp:58-67 | reading entries gives at most one rule per entry |
| RuleFile.RepackDropsTop | pngtrace.cpp:64-75 | packing what was unpacked gives back the entry without its top four bits |
| RuleFile.LoadedLast | pngtrace.cpp:58-67 | after reading a file a mask has a rule exactly when some entry carries it, and its direction is the last such entry's |
| RuleFile.LoadRules | pngtrace.cpp:53-69 | a missing file leaves the table unchanged; otherwise the table is cleared and becomes what reading the entries in order gives |
| RuleFile.LeastExists | pngtrace.cpp:73 | every non-empty set of masks has a least one |
| RuleFile.Least | pngtrace.cpp:73 | the mask chosen is the least of the set |
| RuleFile.Ascending | pngtrace.cpp:73 | the visiting order holds exactly the masks of the table, once each |
| RuleFile.AscendingSorted | pngtrace.cpp:73 | the masks are visited in strictly ascending order |
| RuleFile.AscendingDistinct | pngtrace.cpp:73 | no mask is visited twice |
| RuleFile.Entries | pngtrace.cpp:73-77 | one packed entry per mask, in the given order |
| RuleFile.Saved | pngtrace.cpp:70-79 | one entry is written per rule |
| RuleFile.LoadEntries | pngtrace.cpp:58-77 | reading back entries of distinct masks gives a rule for exactly those masks, each with its own direction |
| RuleFile.SaveLoad | pngtrace.cpp:53-79 | reading back the file written for a table gives the same table |
| RuleFile.SaveRules | pngtrace.cpp:70-79 | the writing loop produces one packed entry per rule in ascending mask order, which reads back as the same table (`RuleFile.SaveLoad`) |
| PngSample.RowBit | pngtrace.cpp:347-351 | a bit of the row is 0 or 1 |
| PngSample.BitPosition | pngtrace.cpp:338-343 | splitting the offset at 64 pixels still addresses the byte and bit where channel c of pixel x starts |
| PngSample.Component | pngtrace.cpp:336-356 | a value is returned exactly for depths 1, 2, 4, 8 and 16; any other depth is refused |
| PngSample.PickNarrow | pngtrace.cpp:347-350 | a sample of 1, 2, 4 or 8 bits is the field of its byte's bits |
| PngSample.FieldOfByte | pngtrace.cpp:350 | the eight bits of a byte spell the byte |
| PngSample.PickWide | pngtrace.cpp:351 | a 16-bit sample is the field of its two bytes' bits, high byte first |
| PngSample.PickIsField | pngtrace.cpp:345-351 | the sample picked at a bit offset is the field of the row's bits starting there |
| PngSample.OffsetSplit | pngtrace.cpp:338-343 | the 8-byte units and the low bits of the split offset add up to the sample's bit offset |
| PngSample.DepthAligned | pngtrace.cpp:347-349 | a sample of 1, 2, 4 or 8 bits never straddles a byte |
| PngSample.SampleBytes | pngtrace.cpp:341-351 | a sample inside the row lies in its bytes, and 16-bit samples start on a byte |
| PngSample.RowBitInByte | pngtrace.cpp:347 | bit 8a+j of the row is bit j of byte a, counting from the top |
| PngSample.ByteField | pngtrace.cpp:347-349 | bits p .. p+n-1 of a byte are the byte shifted down by 8-p-n and masked to n bits |
| PngSample.FieldSplit | pngtrace.cpp:351 | a field of n+k bits is its first n bits followed by the next k |
| PngSample.ComponentIsSample | pngtrace.cpp:336-356 | the value returned is the sample the PNG bit layout puts at channel c of pixel x |
| PngSample.SampleIsPick | pngtrace.cpp:341-351 | sample k is what is read at its byte and bit |
| Raster.Put | pngtrace.cpp:150-155 | writing a pixel keeps the plane's size |
| Raster.At | pngtrace.cpp:156-161 | only a pixel inside the image can read nonzero |
| Raster.PutAt | pngtrace.cpp:150-161 | a pixel written inside the image reads back as written; a write outside changes nothing, and every other pixel keeps its value |
| Raster.Blank | pngtrace.cpp:127-149 | a freshly allocated image has the requested size and every pixel, inside or outside, reads 0 |
| Raster.SamePixels | pngtrace.cpp:156-161 | two images of one size that read the same at every pixel are the same image |
| Raster.DarkenShrinks | pngtrace.cpp:308-310 | clearing a lit pixel leaves fewer lit pixels |
| Raster.RegionStart | pngtrace.cpp:303-309 | a flood from a lit pixel covers it; a flood from a dark pixel covers nothing |
| Raster.InRegion | pngtrace.cpp:300-316 | both ends of a region path are lit |
| Raster.RegionStep | pngtrace.cpp:311-314 | the region is closed under a step left, right, up or down to a lit pixel |
| Raster.RegionLit | pngtrace.cpp:308-309 | every pixel of a region is lit |
| Raster.Erased | pngtrace.cpp:300-316 | erasing keeps the size, clears exactly the pixels of the 4-connected lit region of the start, and keeps every other pixel |
| Raster.EraseDark | pngtrace.cpp:308-309 | erasing from a dark pixel changes nothing |
| Raster.EraseDarkens | pngtrace.cpp:308-310 | erasing darkens the start and only ever clears pixels |
| Raster.RegionDarkened | pngtrace.cpp:300-316 | when the start is dark afterwards and every darkened pixel has all its lit neighbours dark, the whole region is dark |
| Raster.PathDarkened | pngtrace.cpp:311-314 | a walk of lit pixels from a darkened start, under the same sealing, ends at a dark pixel |
| Corners.CellBit | pngtrace.cpp:193-194 | a window cell gives a single bit |
| Corners.MaskUpToNext | pngtrace.cpp:187-195 | the centre cell adds nothing and every other cell shifts its bit in |
| Corners.MaskUpToBound | pngtrace.cpp:184-196 | the mask after k cells has no more bits than those cells gave |
| Corners.MaskUpToBit | pngtrace.cpp:184-196 | each earlier cell's bit sits at its place in the mask |
| Corners.MaskBits | pngtrace.cpp:174-196 | the neighbourhood mask has 24 bits, and cell j of the window, counted row by row and skipping the centre, is bit 23 minus its slot, as the mask printer reads it |
| Corners.Classify | pngtrace.cpp:198-204 | a mask with a rule is a corner exactly when its rule differs from the current direction, and the direction becomes the rule; an unknown mask is no corner and gives no direction |
| Corners.Delta | pngtrace.cpp:246-256 | each of the eight directions moves one unit or less on each axis and not zero on both; any other code does not move |
| Corners.Step | pngtrace.cpp:246-256 | a step in one of the eight directions reaches a different, neighbouring pixel; any other code stays put |
| Corners.Walk | pngtrace.cpp:244-275 | a corner found by a walk is lit |
| Corners.StepNeighbour | pngtrace.cpp:246-256 | each of the eight directions moves to a different one of the eight neighbouring pixels, the opposite direction moves back, and any other code does not move |
| Corners.WalkStep | pngtrace.cpp:244-275 | one step of the walk leaves less room to the edge, and the walk continues exactly when the new pixel is lit and its rule keeps the direction |
| Corners.WalkEnds | pngtrace.cpp:244-275 | a walk passes only lit pixels whose rule keeps it straight, and stops at the first pixel that does not: found there when it is a lit corner, nothing when it is dark or has no rule |
| Corners.WalkLength | pngtrace.cpp:244-275 | a walk takes at least one step |
| Corners.RayShift | pngtrace.cpp:246-256 | the ray from one step out is the ray from the start one step further |
| Corners.ChaseNext | pngtrace.cpp:288-294 | one round of the trace: the corner is written, then the trace stops if no corner follows, closes if the next corner is the origin, and goes on from it otherwise |
| Corners.Chase | pngtrace.cpp:288-297 | a chase writes nothing exactly when it has no rounds, starts with its corner, writes at most one line per round plus the sentinel, and ends with the sentinel when it closes |
| Corners.TraceLines | pngtrace.cpp:278-298 | lines are written only from a start corner and begin with it, there is at most one per round plus the sentinel, and a closed outline ends with the sentinel |
| Corners.TraceBegin | pngtrace.cpp:281-287 | a trace from a start corner begins at it with nothing written |
| Corners.TraceOut | pngtrace.cpp:288-294 | a trace that runs out of rounds ends unfinished with what it wrote |
| Corners.TraceAdvance | pngtrace.cpp:288-297 | each round of the trace loop writes the corner and then stops if no corner follows, closes with the sentinel line if the next corner is the start, or goes on from the next corner |
| Corners.ChaseClosed | pngtrace.cpp:288-297 | a closed chase writes corners each followed by the next, leading back to the origin, which appears only first, then the sentinel |
| Corners.LinkedAll | pngtrace.cpp:288-294 | in a chain every corner but the last is followed by the next, the last is followed by the origin, and the origin appears only first |
| Corners.TraceClosed | pngtrace.cpp:278-298 | a closed outline is its start, a chain of corners back to the start, and the sentinel line |
| Corners.Scan | pngtrace.cpp:318-333 | the scan keeps the plane's size |
| Corners.ScanNext | pngtrace.cpp:322-332 | one pixel of the scan: rows end, dark pixels are passed, a lit pixel's outline is written and stops the scan unless it closes, in which case its region is erased and the scan goes on |
| Corners.ScanBegin | pngtrace.cpp:322-324 | the scan starts at the first pixel with nothing written |
| Corners.ScanSkip | pngtrace.cpp:326-327 | a dark pixel is passed over |
| Corners.ScanStop | pngtrace.cpp:328-329 | a lit pixel whose outline does not close ends the scan there with its lines written |
| Corners.ScanErase | pngtrace.cpp:328-330 | a lit pixel whose outline closes has its lines written and its region erased |
| Corners.ScanRowEnd | pngtrace.cpp:322-324 | at the end of a row the scan goes on at the start of the next |
| Corners.ScanEnd | pngtrace.cpp:322-333 | after the last row the scan has finished |
| Corners.ScanClears | pngtrace.cpp:318-333 | a scan that finishes leaves every pixel dark |
| Corners.ScanBlank | pngtrace.cpp:318-333 | tracing a whole image that finishes leaves it blank |
| Image.OffsetInjective | pngtrace.cpp:154-160 | two pixels of one column of chunks share a byte only when they are the same pixel |
| Image.ChunkGet | pngtrace.cpp:85-90 | outside the chunk a read gives 0 |
| Image.ChunkSet | pngtrace.cpp:91-96 | a pixel set inside the chunk reads back as written and no other byte changes; a write outside the chunk changes nothing |
| Image.ClearColumn | pngtrace.cpp:141-147 | clearing a column leaves every byte of it 0 |
| Image.Store | pngtrace.cpp:154 | writing a pixel's byte keeps the shape of the columns |
| Image.CoupledPut | pngtrace.cpp:150-155 | writing a pixel's byte in its chunk keeps the chunks in step with the plane written at that pixel |
| Image.CoupledBlank | pngtrace.cpp:133-148 | columns of zeros large enough for every pixel hold the blank plane |
| Image.Image.Columns | pngtrace.cpp:101 | the byte view has one column per chunk column, each the column's contents |
| Image.Image.constructor | pngtrace.cpp:104-108 | the image starts with no chunks, size 0 by 0 |
| Image.Image.Alloc | pngtrace.cpp:127-149 | after allocation the sizes are as given, the chunk counts are the sizes over 256 plus one, the chunks are fresh and the image is blank |
| Image.Image.Get | pngtrace.cpp:156-161 | a read gives the pixel of the plane the chunks hold, 0 outside the image |
| Image.Image.Set | pngtrace.cpp:150-155 | a write changes the plane exactly as writing that pixel does, and nothing outside the image |
| Image.Image.FloodErase | pngtrace.cpp:300-316 | the stack loop leaves the plane with exactly the 4-connected lit region of the start cleared |
| Image.Image.IsCorner | pngtrace.cpp:182-204 | the mask is the 24-bit neighbourhood of the pixel and the answer is the rule lookup for it |
| Image.Image.ShiftRow | pngtrace.cpp:187-195 | one row of the window shifts its five cells, less the centre, into the mask |
| Image.Image.FindCorner | pngtrace.cpp:235-276 | with check only, succeeds exactly when the pixel is a start corner; otherwise succeeds exactly when the walk finds the next corner, and returns it |
| Image.Image.Trace | pngtrace.cpp:278-298 | the lines written and the ending are those of the outline from the pixel |
| Image.Image.DoTrace | pngtrace.cpp:318-333 | the lines written, the plane left and whether the scan finished are those `Corners.Scan` defines; a finished scan leaves the image blank (`Corners.ScanBlank`) |
| Image.Image.ScanRow | pngtrace.cpp:324-331 | one row of the scan either stops the whole scan with its result or hands the next row the scan invariant |
| Image.Image.Visit | pngtrace.cpp:326-330 | one pixel of the scan either stops the whole scan with its result or hands the next pixel the scan invariant |
| Image.Image.EraseTop | pngtrace.cpp:306-314 | one pop of the stack keeps the erase invariant, and either a lit pixel is cleared or the stack shrinks |
| Image.Begun | pngtrace.cpp:302-303 | the erase loop starts with nothing cleared and the start stacked |
| Image.PopDark | pngtrace.cpp:306-309 | popping a dark pixel keeps the erase invariant |
| Image.PopLit | pngtrace.cpp:306-314 | clearing a popped lit pixel and stacking its four neighbours keeps the erase invariant |
| Image.PopLowered | pngtrace.cpp:310 | clearing a pixel of the region keeps every pixel at its first value or cleared inside the region |
| Image.PopGuarded | pngtrace.cpp:310-314 | after the clear and the pushes every cleared pixel has its lit neighbours on the stack |
| Image.PushedPending | pngtrace.cpp:311-314 | every lit pixel left on the stack lies in the region |
| Image.Unstacked | pngtrace.cpp:306-314 | a guarded pixel stays guarded after the pop and further pushes |
| Image.Settled | pngtrace.cpp:304-316 | once the stack is empty the plane is the original with the region of the start erased |
| SvgPath.SpaceFrom | convertsvg.php:58 | the position found is the first whitespace at or after k, or the end, with no whitespace before it |
| SvgPath.WordFrom | convertsvg.php:58 | the position found is the first non-whitespace at or after k, or the end, with only whitespace before it |
| SvgPath.Split | convertsvg.php:58 | splitting on runs of whitespace gives at least one token and no token holds whitespace |
| SvgPath.SplitJoin | convertsvg.php:58 | splitting tokens joined by single spaces gives the tokens back, when only the first and last may be empty |
| SvgPath.NoSpaceFrom | convertsvg.php:58 | text without whitespace has no split point |
| SvgPath.SpaceAt | convertsvg.php:58 | the split stops at the first whitespace |
| SvgPath.Strip00 | convertsvg.php:83 | removing ".00" never lengthens a point |
| SvgPath.StripPlain | convertsvg.php:83 | text without a '.' is kept and the removal goes on after it |
| SvgPath.StripPair | convertsvg.php:83 | a point "a.00,b.00" with whole coordinates becomes "a,b" |
| SvgPath.StripFraction | convertsvg.php:83 | a leading ".00" is removed and the removal goes on after it |
| SvgPath.StripNoDot | convertsvg.php:83 | text without a '.' is unchanged |
| SvgPath.RunBounds | convertsvg.php:61-90 | each output line stands for at least one token and each warning for one line; an abort prints no more warnings than tokens are left |
| SvgPath.Run | convertsvg.php:61-90 | an abort names a command other than M and C, which is the current command or a token of the path |
| SvgPath.Segments | convertsvg.php:77-80 | straight segments take three tokens each |
| SvgPath.Stripped | convertsvg.php:83 | one output line per point, each with its ".00"s removed |
| SvgPath.StraightSegments | convertsvg.php:77-85 | a run of straight segments writes each end point, stripped, and warns about none of them |
| SvgPath.RunSegment | convertsvg.php:77-85 | one segment writes its stripped end point, makes it the last point, and warns exactly when the segment does not start at the last point or its two end tokens differ |
| SvgPath.Curved | convertsvg.php:81-82 | a segment whose control points sit on its ends is never reported as a curve |
| SvgPath.Outline | convertsvg.php:58-90 | an outline has three tokens per segment plus four |
| SvgPath.RunClose | convertsvg.php:70-76 | a "Z" in a C command writes "-1,-1" and takes the next token as the command, if there is one |
| SvgPath.RunUnknown | convertsvg.php:87-88 | any command other than M or C with tokens left aborts and writes nothing |
| SvgPath.RunOutline | convertsvg.php:58-90 | an outline of straight segments converts to its stripped points followed by "-1,-1", with no warning |
| SvgPath.RunMove | convertsvg.php:65-68 | M takes its point as the last point and the next token as the command, and writes nothing |
| SvgPath.RunSegmentsClose | convertsvg.php:69-85 | straight segments ended by "Z" as the last token write their stripped end points and "-1,-1" |
| SvgPath.OutlineToken | convertsvg.php:58 | every token of an outline is a nonempty word |
| SvgPath.Middle | convertsvg.php:58 | the middle part of a concatenation is cut back out |
| SvgPath.MiddleAt | convertsvg.php:58 | an element of the middle part is found at its offset |
| SvgPath.SegmentsPoints | convertsvg.php:77-80 | every token of straight segments between points is a point |
| SvgPath.StraightOutline | convertsvg.php:58-90 | the path text of a closed outline of straight segments converts to its stripped end points and "-1,-1", with no warning |
| SvgPath.ConvertBegin | convertsvg.php:58-60 | the loop starts after the first token, which is the command, with nothing written |
| SvgPath.ConvertMove | convertsvg.php:65-68 | the M branch keeps the loop invariant |
| SvgPath.ConvertClose | convertsvg.php:70-76 | the Z branch keeps the loop invariant, writing "-1,-1" |
| SvgPath.ConvertSegment | convertsvg.php:77-85 | the segment branch keeps the loop invariant, warning exactly on a curve |
| SvgPath.ConvertUnknown | convertsvg.php:87-88 | an unknown command ends the conversion with an abort after the warnings printed so far |
| SvgPath.ConvertEnd | convertsvg.php:61-91 | when the tokens run out, what was written is the whole conversion |
| SvgPath.ConvertPath | convertsvg.php:58-90 | the token loop writes exactly the lines and warnings the conversion specifies, or aborts where it does |
| SvgPath.Converted | convertsvg.php:58-90 | a path of a single token writes nothing, and an abort names a token of the path other than M and C |
| SvgPath.PrependTwice | convertsvg.php:73-83 | writing two pieces in turn is writing them joined |
| SvgPath.PrependNone | convertsvg.php:66-67 | writing nothing changes nothing |

## Left out

- File and terminal I/O: opening files, `printf`/`fprintf`/`echo` messages and the exact text format of the output lines. Files are inputs given as parsed lines, and outputs are the rows or lines themselves. A missing input file (`exit(2)`) is not modelled.
- The PNG decoding in `pngtrace.cpp` (libpng setup, `get_alpha`, the row loop of `main`) and the command-line driver. Only `component`, which picks one sample out of a row, is modelled.
- The interactive prompt of `is_corner` for a mask with no rule (`pngtrace.cpp:206-232`). The model treats an unknown mask as the user aborting: no corner, direction "none". Rules learned at the prompt and the `discard_rules` flag are therefore not modelled.
- The mask printer `printmask` is not modelled as output. Its bit order is stated by `Corners.MaskBits`.
- `dealloc`, the destructor and all `new`/`delete`: memory management has no counterpart in Dafny.
- The XML reading, file freshness check and driver code of `convertsvg.php` (lines 1-57 and 91-106). The text `die` prints is not modelled: `Died` records the command that stopped the conversion. PHP's notices are not modelled either. Reading past the last token (`convertsvg.php:66-67`, `71`, `79-80`) gives an "undefined offset" notice, and comparing `$lastpt` before any `M` (`convertsvg.php:81`) gives an "undefined variable" notice; the model reads both as null, which compares and prints as the empty string.
- Geometry.Intersect: does not model the 32-bit overflow of the cross products or the rounding of the `long double` division. The parameter comparisons are made exactly on the integer numerators.
- Loader.Load: requires every closed polygon to have at least one vertex. A `-1,-1` line right after another reads the first vertex of an empty vector in the source, which is undefined behaviour.
- Audit.Inspect: requires that every line parses as a full `x,y` pair. The reader in `check.cpp:25-46` never looks at the count `fscanf` returns, so a bad line does one of two things there. When nothing matches (a line starting with a letter), nothing is consumed and the loop adds the previous vertex again forever. When only `x` matches (a line `5`, or `5 6`, which reads as two such numbers), each number adds a vertex whose `y` is the previous vertex's, or uninitialised before the first vertex, and reading goes on. The model excludes both cases through `Audit.Parsable`.
- Devices.Gate: a transistor that no polysilicon node collides with has an uninitialised gate in the source. The model gives it no gate (`None`).
- Image.Image.FindCorner: requires every rule direction to be at most 8 ("none"). A rule file may hold codes 9-15; with those, the walk in `find_corner` never moves and never ends.
- Image.Image.Trace: takes a `fuel` bound on the number of corners visited. An outline whose walk cycles without returning to its start would loop forever in the source; the model ends it as `Unfinished`.
- Image.Image.DoTrace: returns whether the scan finished, which the source does not. The lines are returned instead of written to a `FILE`; a null `FILE` (count only) is the same scan with the lines ignored.
- The "walked off edge" branch of `find_corner` (`pngtrace.cpp:270-274`) is not modelled. It cannot be reached: a step off the image lands on a pixel that reads 0, which the empty-cell check before it already rejects.
- SvgPath.Curved: compares the tokens as strings. PHP's `!=` compares two numeric strings (such as `5` and `5.0`) as numbers. A point token `x,y` is not numeric, so the two differ only on tokens that are a single number.
- The flat chunk layout of the image: each column of chunks is one array of `ch` chunk blocks instead of an array of chunk objects. The byte offsets are the same.
