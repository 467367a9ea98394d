# Course timetabling by graph colouring — a Dafny model

The system builds a course timetable by colouring a conflict graph. Each
course (`MataKuliah`, identified by its `kode`) is a node. Two courses that
share a student, share a lecturer or share a room are joined by an edge. A
colouring gives adjacent courses different colours, and each colour ("slot")
is then turned into a day with a start and an end time.

This project models the pure core of that pipeline:

- **Conflict graph** (`graph.dfy`, module `ConflictGraph`). `nx.Graph()` fed
  with `add_edges_from(pairs)` or `add_edge` per pair. The node order is the
  order of first appearance. An unordered pair becomes one edge, and a
  self-loop counts twice towards the degree, as in networkx.
- **Shared colouring notions** (`colouring.dfy`, module `Colouring`):
  - the colours around a node, saturation, and the first-fit colour
    (`color = 0; while color in used: color += 1`);
  - properness;
  - the DSATUR selection rule;
  - the two colour counts: `max(coloring.values()) + 1`, which raises on an
    empty graph, and the greedy page's guarded version.
- **Web-page DSATUR** (`dsatur_incremental.dfy`, module `DsaturIncremental`).
  `dsatur_coloring` of `coloring-dsatur.py` updates the saturations
  incrementally. It picks the first node in node order whose
  (saturation, degree) key is largest, because Python's `max` keeps the first
  maximum.
- **Command-line DSATUR** (`dsatur_recomputing.dfy`, module
  `DsaturRecomputing`). `dsatur_coloring` of `chromatic-dsatur.py` recomputes
  every saturation each round. Ties that remain after the degree tie-break go
  by Python set order, which the model leaves as a nondeterministic choice
  (`:|`).
- **Clock texts** (`time_text.dfy`, module `TimeText`). `f"{h:02d}:00"` and
  `f"{h:02d}:40"`, with a reader that parses the texts back.
- **Slot calendars** (`calendar.dfy`, module `SlotCalendar`):
  - the greedy page's stacking `slot_to_hari_jam`: six days, each later cycle
    two hours later;
  - the DSATUR page's five-entry table, `mapping[slot % 5]`;
  - the stacking calendar over the DSATUR table's five days.
- **Schedule assembly** (`schedule.dfy`, module `Schedule`). The pure part of
  `sinkron_pewarnaan`: one record per coloured course with its slot and its
  period. The module also holds the end-to-end method that builds, colours and
  assembles.
- **Supporting facts** (`collections.dfy`, `arithmetic.dfy`): cardinalities,
  `max` of a finite set, pigeonhole, quotient and remainder.

Modelling choices:

- A course code is a `string`.
- The day names are the datatype `Hari` (`Senin` … `Sabtu`) rather than
  strings.
- A start or end time is a `Clock(hour, minute)`, and `TimeText.Render` prints
  it as the source does. Its contract states that the printed text reads back
  as the same clock. `FirstCycleTexts` and `SecondCycleTexts` pin the exact
  texts `"08:00"`, `"09:40"`, `"10:00"` and `"11:40"`.
- Colours are `nat`. Python integers are unbounded, so no wrap-around arises.
- The guard `if node in coloring` (coloring-dsatur.py:102) always holds,
  because the node was coloured on the line before. `DsaturIncremental.Step`
  therefore updates every neighbour.
- The selection key `(saturation[n], G.degree[n])` of coloring-dsatur.py:95
  is `DsaturIncremental.Key`, and Python's tuple order on such keys is
  `Colouring.KeyBelow`. Both are definitions used by the contracts of
  `Chosen`, `BestAmong` and `MostSaturated`.
- The `rounds` out-parameter of both `Colour` methods counts passes of the
  main loop. The source has no such variable; it is there to state that the
  loop runs exactly once per node.

Two points about the code that a reader might expect otherwise:

- An empty graph is an error. Both DSATUR functions compute
  `max(coloring.values()) + 1`, which raises `ValueError` when nothing was
  coloured. The model returns `Failure(NoColours)` there
  (`Colouring.ChromaticNumber`), and so do both `Colour` methods and both
  `Synchronise` methods. The greedy page's guarded count gives 0 instead
  (`Colouring.ColourCount`).
- The code has no validator or repair pass over a finished colouring and no
  configurable calendar. Neither is modelled.

The module `TimeText` also holds a reader for `HH:MM` texts (`ReadClock`,
with its parts `ParseDecimal`, `BeforeColon` and `ReadJoined`). The source
never parses a time. The reader is there only to state that `Render` is
injective, as a round trip.

## Model

| member | source | states |
|---|---|---|
| ConflictGraph.AddNode | chromatic-dsatur.py:23 | adding a node keeps the graph well formed, adds exactly that node and changes no adjacency; a new node goes at the end of the node order and an existing one leaves the order as it was |
| ConflictGraph.Degree | chromatic-dsatur.py:30 | `G.degree[n]` is the number of neighbours, plus one more exactly when `n` is its own neighbour |
| ConflictGraph.DegreeCountsLoopTwice | chromatic-dsatur.py:30 | in networkx's degree every other neighbour counts once and a self-loop counts twice |
| ConflictGraph.AddEdge | chromatic-dsatur.py:23 | `add_edge(u, v)` keeps the graph well formed, its node set becomes the old one plus `u` and `v`, and the node order gains `u` if it was missing and then `v` if it was missing and differs from `u` |
| ConflictGraph.AddEdgeAdjacent | chromatic-dsatur.py:23 | after `add_edge(u, v)` two nodes are adjacent exactly when they were before or are `{u, v}` in either orientation |
| ConflictGraph.BuildGraph | coloring-dsatur.py:79-85 | the graph built from the conflict pairs is well formed, its nodes are exactly the endpoints of the pairs, and two nodes are adjacent exactly when the pair is listed in either orientation, and the node order is the order in which the endpoints first occur in the list |
| ConflictGraph.FirstOccurrencesSnoc2 | coloring-dsatur.py:83 | listing one more pair extends the first occurrences of the endpoints by its endpoints not seen before, first endpoint first |
| ConflictGraph.BuildOrderStep | coloring-dsatur.py:83 | one `add_edge` extends the node order exactly as the first occurrences of the endpoints grow |
| ConflictGraph.NoIsolatedNodes | coloring-dsatur.py:81-83 | every node of the built graph has at least one neighbour |
| ConflictGraph.BuildGraphEmpty | coloring-dsatur.py:81-83 | the built graph has no node exactly when the list of conflict pairs is empty |
| ConflictGraph.LooplessWhenPairsDistinct | coloring-dsatur.py:72-77 | when every pair joins two different courses, as the `c1.kode < c2.kode` queries guarantee, the graph has no self-loop |
| ConflictGraph.RepeatedPairCollapses | chromatic-dsatur.py:12-24 | listing a pair again, in the same or the reverse orientation (the undirected query returns both), leaves the graph unchanged |
| Colouring.NeighbourColours | chromatic-dsatur.py:36 | a colour is among the neighbour colours of `v` exactly when some coloured neighbour of `v` has it |
| Colouring.Saturation | chromatic-dsatur.py:34-37 | the saturation of a node, the number of distinct colours among its coloured neighbours, never exceeds its number of neighbours |
| Colouring.FirstFit | coloring-dsatur.py:96-99 | the first-fit colour is not among the used colours, every smaller colour is, and it is at most the number of used colours |
| Colouring.FirstFitWithinDegree | chromatic-dsatur.py:45-48 | the first-fit colour of a node is at most its number of neighbours, which is at most its degree |
| Colouring.FirstFitKeepsProper | coloring-dsatur.py:96-100 | giving an uncoloured node its first-fit colour keeps a proper partial colouring proper |
| Colouring.MostSaturatedShareKey | chromatic-dsatur.py:40-42 | any two nodes the DSATUR rule may select have the same saturation and the same degree, so the rule is determined up to ties |
| Colouring.ChromaticNumber | coloring-dsatur.py:105 | `max(coloring.values()) + 1` fails exactly on an empty colouring; otherwise it exceeds every colour and equals some colour plus one |
| Colouring.ColourCount | coloring-greedy.py:83 | the guarded count is 0 on an empty colouring and otherwise exceeds every colour and equals some colour plus one |
| Colouring.CountsAgree | coloring-greedy.py:83 | the guarded count equals `max + 1` wherever the latter is defined, and is 0 exactly where it raises |
| Colouring.CountWithinMaxDegree | coloring-dsatur.py:96-105 | a complete colouring that gives no node a colour above its degree uses at most maximum degree plus one colours |
| DsaturIncremental.Init | coloring-dsatur.py:89-91 | the initial state satisfies the loop invariant with nothing coloured |
| DsaturIncremental.BestAmong | coloring-dsatur.py:94-95 | scanning the first `k` nodes, the result is absent exactly when all are coloured; otherwise it is uncoloured, no uncoloured node has a larger key, and every earlier uncoloured node has a strictly smaller key |
| DsaturIncremental.SomeUncoloured | coloring-dsatur.py:93-94 | while fewer nodes are coloured than the graph has, `uncolored` is not empty |
| DsaturIncremental.Chosen | coloring-dsatur.py:95 | the selected node is uncoloured, has a lexicographically largest (saturation, degree) key, and is the first such node in node order |
| DsaturIncremental.SaturationsExact | coloring-dsatur.py:101-104 | under the loop invariant the stored saturation of every node equals its saturation recomputed from the colouring |
| DsaturIncremental.ChosenIsMostSaturated | coloring-dsatur.py:94-95 | the web page's choice satisfies the recomputing colourer's selection rule, and no earlier uncoloured node in node order does |
| DsaturIncremental.FirstOfMaxima | coloring-dsatur.py:95 | the first node with a maximal stored key is a DSATUR choice, and no uncoloured node before it is |
| DsaturIncremental.Step | coloring-dsatur.py:94-104 | one pass keeps the invariant, colours exactly one more node (the selected, previously uncoloured one) with its first-fit colour, recolours nothing, and never lowers a saturation |
| DsaturIncremental.Record | coloring-dsatur.py:100-104 | recording a colour gives exactly that node the colour, leaves every other node's colour as it was, and keeps the nodes of `saturation` and `neighbor_colors` |
| DsaturIncremental.NeighbourColoursAfter | coloring-dsatur.py:101-103 | colouring a node adds its colour to the neighbour colours of exactly its neighbours |
| DsaturIncremental.RecordKeepsBookkept | coloring-dsatur.py:101-104 | after recording a colour, `neighbor_colors[v]` is again the set of colours of v's coloured neighbours, `saturation[v]` its size, and no saturation decreased |
| DsaturIncremental.StepKeepsInv | coloring-dsatur.py:93-104 | the loop body preserves the bookkeeping, the properness of the partial colouring and the bound of each colour by the number of neighbours |
| DsaturIncremental.Finished | coloring-dsatur.py:93-105 | at loop exit every node is coloured once, the colouring is proper, each colour is at most its node's degree, and the count is at most maximum degree plus one |
| DsaturIncremental.Colour | coloring-dsatur.py:87-107 | the result colours every node, is proper, takes exactly one round per node, bounds each colour by its degree, and reports `max + 1` (at most maximum degree plus one), failing exactly on an empty graph |
| DsaturRecomputing.SelectNext | chromatic-dsatur.py:34-42 | the selected node is uncoloured, has the largest saturation, and among those the largest degree |
| DsaturRecomputing.RoundKeepsInv | chromatic-dsatur.py:45-51 | one round takes the selected node out of `uncolored`, gives it its first-fit colour, and keeps `uncolored` equal to the uncoloured nodes, the colouring proper and each colour bounded |
| DsaturRecomputing.Finished | chromatic-dsatur.py:32-53 | when `uncolored` is empty every node is coloured once, no colour exceeds its degree, and the count is at most maximum degree plus one |
| DsaturRecomputing.Colour | chromatic-dsatur.py:27-54 | for every admissible sequence of tie-breaks the colouring is complete and proper, takes one round per node, bounds each colour by its degree, and reports `max + 1` (at most maximum degree plus one), failing exactly on an empty graph |
| TimeText.Decimal | coloring-greedy.py:89 | the decimal text of a number is a non-empty run of digits with no leading zero, one digit long exactly below ten and at most two below a hundred |
| TimeText.DecimalValue | coloring-greedy.py:89 | reading the decimal text of a number gives the number back |
| TimeText.LeadingZero | coloring-greedy.py:89 | a leading zero does not change the value of a digit string |
| TimeText.Pad2 | coloring-greedy.py:89 | `:02d` yields exactly two digits below a hundred and the plain decimal text from ten on, and the digits read back as the number |
| TimeText.Render | coloring-greedy.py:89-90 | a printed `HH:MM` time reads back as the same hour and minute |
| TimeText.RenderInjective | coloring-greedy.py:89-90 | different times never print as the same text |
| TimeText.FirstCycleTexts | coloring-dsatur.py:111-115 | 8:00 and 9:40 print as `"08:00"` and `"09:40"`, the texts of the DSATUR page's table |
| TimeText.SecondCycleTexts | coloring-greedy.py:89-90 | 10:00 and 11:40, the times of slot 6 of the greedy page, print as `"10:00"` and `"11:40"` |
| SlotCalendar.Stacked | coloring-greedy.py:86-91 | the stacking calendar puts slot `s` on `days[s % L]`, starting at `8 + 2 * (s // L)` o'clock, and ending at 40 past the following hour |
| SlotCalendar.StackedPeriodic | coloring-greedy.py:88-90 | `L` slots later the stacking calendar is on the same day, two hours later |
| SlotCalendar.StackedInjective | coloring-greedy.py:87-90 | over pairwise different days, two slots with the same day and start time are the same slot |
| SlotCalendar.HariListDistinct | coloring-greedy.py:87 | `hari_list` names each of its six days once |
| SlotCalendar.GreedySlot | coloring-greedy.py:86-91 | the greedy page's slot falls on `hari_list[slot % 6]`, starts at `8 + 2 * (slot // 6)` and ends one hour and 40 minutes later |
| SlotCalendar.GreedyInjective | coloring-greedy.py:86-91 | different slots of the greedy page's calendar never share a day and start time |
| SlotCalendar.GreedyFirstCycle | coloring-greedy.py:87-90 | slots 0 to 5 are the days of `hari_list` in order, Monday to Saturday, all at 08:00-09:40, and slot 6 is Monday 10:00-11:40 |
| SlotCalendar.DsaturSlot | coloring-dsatur.py:109-117 | the DSATUR page's slot is `mapping[slot % 5]` of its five-row table and always runs 08:00-09:40 |
| SlotCalendar.DsaturPeriodic | coloring-dsatur.py:117 | slots `c` and `c + 5` get the same entry |
| SlotCalendar.DsaturInjectiveBelowFive | coloring-dsatur.py:110-117 | slots 0 to 4 get five different entries |
| SlotCalendar.DsaturSlotStacked | coloring-dsatur.py:109-117 | the corrected DSATUR calendar puts slot `s` on a weekday starting at `8 + 2 * (s // 5)` o'clock |
| SlotCalendar.StackedExtendsTable | coloring-dsatur.py:110-116 | on slots 0 to 4 the corrected calendar agrees with the table as written |
| SlotCalendar.DsaturStackedInjective | coloring-dsatur.py:109-117 | different slots of the corrected calendar never share a day and start time |
| Schedule.Assemble | coloring-dsatur.py:189-190 | there is one record for each coloured course and nothing else; each holds the course's colour and that colour's period |
| Schedule.ScheduleSeparates | coloring-dsatur.py:189-190 | through a calendar that gives different slots different times, a proper colouring yields a timetable in which no two conflicting courses share a time |
| Schedule.GreedyScheduleSeparates | coloring-greedy.py:148-149 | the greedy page's timetable keeps every two conflicting courses at different times |
| Schedule.TableScheduleCollides | coloring-dsatur.py:189-190 | with the five-row table, six pairwise conflicting courses always leave two conflicting courses at the same day and time, whatever their colours |
| Schedule.TableSlotsZeroAndFive | coloring-dsatur.py:110-117 | colours 0 and 5 are both Monday 08:00-09:40 |
| Schedule.StackedScheduleSeparates | coloring-dsatur.py:189-190 | with the corrected calendar, the DSATUR page's timetable keeps every two conflicting courses at different times |
| Schedule.SynchroniseAsWritten | coloring-dsatur.py:185-190 | build, colour and assemble with the five-row table fail exactly when there is no conflict pair, as `max` raises then; otherwise they give exactly one record per course in the conflict pairs, conflicting courses different slots, and each record the table's period for its slot |
| Schedule.Synchronise | coloring-dsatur.py:185-190 | the same pipeline with the corrected calendar fails exactly on an empty list of conflict pairs; otherwise it also gives conflicting courses different slots and, in addition, never the same day and start time |

## Left out

- The Flask routes, `flask_login` sessions and login/logout, the admin pages for courses, and `render_template`. These are user-interface glue.
- The Neo4j driver and every Cypher query. The conflict pairs are an input sequence to `BuildGraph`. `LooplessWhenPairsDistinct` states the one property of the queries the graph relies on: `c1.kode < c2.kode`. The database writes of `sinkron_pewarnaan` become the records that `Assemble` returns.
- The matplotlib drawing in `render_colored_graph`. This is graphics.
- The `time.time()` durations returned next to each result. These are wall-clock floats.
- `nx.coloring.greedy_color(G, strategy="largest_first")`. It is a networkx library routine whose body is not part of this model, so the greedy page's colouring is an arbitrary proper colouring in `GreedyScheduleSeparates`. Likewise, chromatic-greedy.py is that call plus I/O, so it is not part of this model.
- The printing at the end of chromatic-dsatur.py. The guard on an empty graph there is reflected by `DsaturRecomputing.Colour` failing exactly on an empty graph.
- Python's hash-set iteration order in chromatic-dsatur.py. It is a nondeterministic choice among the nodes with the best (saturation, degree) key.
- Day names and times as Python strings. Days are the datatype `Hari`, and times are `Clock` values printed by `Render`. Only the four texts of the first two stacking cycles are pinned down literally.

## Findings

| source | as written | input that shows it | evidently intended | confidence | as-written member | corrected member |
|---|---|---|---|---|---|---|
| coloring-dsatur.py:109-117 | `slot_to_hari_jam` returns `mapping[slot % 5]` from five entries that all run 08:00-09:40, so slots `c` and `c + 5` get the same day and time | six courses that pairwise conflict, for instance six courses taken by one student: DSATUR needs six colours 0-5, and colours 0 and 5 are both Senin 08:00-09:40, so two conflicting courses are timetabled together | later cycles shifted to later hours, as the greedy page's calendar does, so that different slots never share a day and start time | medium — not executed | Schedule.TableScheduleCollides | Schedule.StackedScheduleSeparates |
