/**
 Turning a colouring into timetable records, as `sinkron_pewarnaan` does on
 both pages: every coloured course gets one record holding its slot and the
 period the page's calendar assigns to that slot. Conflicting courses are
 kept apart exactly when the calendar never gives two slots the same time;
 the DSATUR page's five-entry table does not, the stacking calendars do.
 */
module Schedule {
  import opened Collections
  import opened ConflictGraph
  import opened Colouring
  import opened SlotCalendar
  import DsaturIncremental

  /** A course's timetable entry: the `Jadwal` node with `slot` and the day
      and times written next to it. */
  datatype Record = Record(slot: nat, period: Period)

  /** `for kode, slot in pewarnaan.items(): ... slot_to_hari_jam(slot)`: one
      record per coloured course, carrying its colour and that colour's
      period. */
  function Assemble(c: Colouring, calendar: nat -> Period): (r: map<Node, Record>)
    ensures r.Keys == c.Keys
    ensures forall n :: n in r ==> r[n].slot == c[n] && r[n].period == calendar(c[n])
  {
    map n | n in c :: Record(c[n], calendar(c[n]))
  }

  /** No two different conflicting courses are held at the same time. */
  ghost predicate Separated(g: Graph, r: map<Node, Record>) {
    forall u, v {:trigger v in g.adj[u]} ::
      u in g.adj && v in g.adj[u] && u in r && v in r && u != v ==>
        !SameTime(r[u].period, r[v].period)
  }

  /** Through a calendar that gives different slots different times, a
      proper colouring yields a clash-free timetable. */
  lemma ScheduleSeparates(g: Graph, c: Colouring, calendar: nat -> Period)
    requires ProperOn(g, c)
    requires forall a: nat, b: nat :: SameTime(calendar(a), calendar(b)) ==> a == b
    ensures Separated(g, Assemble(c, calendar))
  {
    var r := Assemble(c, calendar);
    forall u, v | u in g.adj && v in g.adj[u] && u in r && v in r && u != v
      ensures !SameTime(r[u].period, r[v].period)
    {
      assert c[u] != c[v];
    }
  }

  /** The greedy page's timetable never puts two conflicting courses at the
      same time. */
  lemma GreedyScheduleSeparates(g: Graph, c: Colouring)
    requires ProperOn(g, c)
    ensures Separated(g, Assemble(c, GreedySlot))
  {
    forall a: nat, b: nat | SameTime(GreedySlot(a), GreedySlot(b))
      ensures a == b
    {
      GreedyInjective(a, b);
    }
    ScheduleSeparates(g, c, GreedySlot);
  }

  /** Six courses that pairwise conflict. */
  ghost predicate Clique6(g: Graph, k: seq<Node>) {
    && |k| == 6
    && (forall i, j :: 0 <= i < j < 6 ==> k[i] != k[j] && Adjacent(g, k[i], k[j]))
  }

  /** The DSATUR page's timetable as written: as soon as six courses
      pairwise conflict, whatever colouring they get, two of them that
      conflict land on the same day and time. */
  lemma TableScheduleCollides(g: Graph, c: Colouring, k: seq<Node>)
    requires Clique6(g, k)
    requires forall i :: 0 <= i < 6 ==> k[i] in c
    ensures exists u, v ::
      && u in c && v in c && u != v && Adjacent(g, u, v)
      && SameTime(Assemble(c, DsaturSlot)[u].period, Assemble(c, DsaturSlot)[v].period)
  {
    var r := Assemble(c, DsaturSlot);
    var rows := seq(6, i requires 0 <= i < 6 => c[k[i]] % 5);
    Pigeonhole(rows, 5);
    var i, j :| 0 <= i < j < |rows| && rows[i] == rows[j];
    assert DsaturSlot(c[k[i]]) == DsaturSlot(c[k[j]]);
    assert SameTime(r[k[i]].period, r[k[j]].period);
  }

  /** A concrete instance: colours 0 and 5 share Monday 08:00-09:40. */
  lemma TableSlotsZeroAndFive()
    ensures SameTime(DsaturSlot(0), DsaturSlot(5))
    ensures DsaturSlot(5).day == Senin
  {
    DsaturPeriodic(0);
  }

  /** With the stacking calendar over the five weekdays, the DSATUR page's
      timetable keeps conflicting courses apart. */
  lemma StackedScheduleSeparates(g: Graph, c: Colouring)
    requires ProperOn(g, c)
    ensures Separated(g, Assemble(c, DsaturSlotStacked))
  {
    forall a: nat, b: nat | SameTime(DsaturSlotStacked(a), DsaturSlotStacked(b))
      ensures a == b
    {
      DsaturStackedInjective(a, b);
    }
    ScheduleSeparates(g, c, DsaturSlotStacked);
  }

  /** Different conflicting courses get different slots. */
  ghost predicate SlotsDiffer(g: Graph, r: map<Node, Record>) {
    forall u, v {:trigger v in g.adj[u]} ::
      u in g.adj && v in g.adj[u] && u in r && v in r && u != v ==> r[u].slot != r[v].slot
  }

  /** The pure part of `sinkron_pewarnaan` on the DSATUR page as written:
      build the conflict graph, colour it, and look every colour up in the
      five-row table. With no conflict pair, `max(coloring.values())` raises
      before any record is written. Otherwise conflicting courses get
      different slots, but the periods of those slots may coincide
      (`TableScheduleCollides`). */
  method SynchroniseAsWritten(pairs: seq<(Node, Node)>) returns (records: Result<map<Node, Record>, ColouringError>)
    ensures records.Failure? <==> pairs == []
    ensures records.Success? ==> forall n :: n in records.value <==> Mentioned(pairs, n)
    ensures records.Success? ==> SlotsDiffer(BuildGraph(pairs), records.value)
    ensures records.Success? ==>
      forall n :: n in records.value ==> records.value[n].period == DsaturSlot(records.value[n].slot)
  {
    var g := BuildGraph(pairs);
    var count, coloring, _ := DsaturIncremental.Colour(g);
    BuildGraphEmpty(pairs);
    if count.Failure? {
      return Failure(count.error);
    }
    records := Success(Assemble(coloring, DsaturSlot));
  }

  /** The pure part of `sinkron_pewarnaan` on the DSATUR page, with the
      stacking calendar: build the conflict graph from the pairs, colour it,
      and give every course of the graph one clash-free record. It fails
      where the page raises, on an empty list of conflict pairs. */
  method Synchronise(pairs: seq<(Node, Node)>) returns (records: Result<map<Node, Record>, ColouringError>)
    ensures records.Failure? <==> pairs == []
    ensures records.Success? ==> forall n :: n in records.value <==> Mentioned(pairs, n)
    ensures records.Success? ==> SlotsDiffer(BuildGraph(pairs), records.value)
    ensures records.Success? ==> Separated(BuildGraph(pairs), records.value)
    ensures records.Success? ==>
      forall n :: n in records.value ==> records.value[n].period == DsaturSlotStacked(records.value[n].slot)
  {
    var g := BuildGraph(pairs);
    var count, coloring, _ := DsaturIncremental.Colour(g);
    BuildGraphEmpty(pairs);
    if count.Failure? {
      return Failure(count.error);
    }
    records := Success(Assemble(coloring, DsaturSlotStacked));
    StackedScheduleSeparates(g, coloring);
  }
}
