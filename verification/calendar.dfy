/**
 The slot calendars: `slot_to_hari_jam` turns a colour (a slot index) into
 the day, start time and end time a course is held. The greedy page cycles
 over six days and moves each further cycle two hours later; the DSATUR page
 has a fixed table of five entries and wraps around it.
 */
module SlotCalendar {
  import opened Collections
  import opened TimeText
  import opened Arithmetic

  /** The teaching days the calendars use, Monday to Saturday. */
  datatype Hari = Senin | Selasa | Rabu | Kamis | Jumat | Sabtu

  /** `(hari, jam_mulai, jam_selesai)`; the times print with `Render`. */
  datatype Period = Period(day: Hari, start: Clock, end: Clock)

  /** Two periods occupy the same time when they fall on the same day and
      start at the same time. */
  predicate SameTime(p: Period, q: Period) {
    p.day == q.day && p.start == q.start
  }

  /** The stacking calendar over `days`: with `L` days, slot `s` is on
      `days[s % L]`, and cycle `k = s / L` runs from `8 + 2k` o'clock to 40
      past the next hour. */
  function Stacked(days: seq<Hari>, slot: nat): (p: Period)
    requires |days| > 0
    ensures p.day in days
    ensures p.day == days[slot % |days|]
    ensures p.start == Clock(8 + 2 * (slot / |days|), 0)
    ensures p.end == Clock(p.start.hour + 1, 40)
  {
    var cycle := slot / |days|;
    Period(days[slot % |days|], Clock(8 + 2 * cycle, 0), Clock(9 + 2 * cycle, 40))
  }

  /** One more full cycle lands on the same day two hours later. */
  lemma StackedPeriodic(days: seq<Hari>, slot: nat)
    requires |days| > 0
    ensures Stacked(days, slot + |days|).day == Stacked(days, slot).day
    ensures Stacked(days, slot + |days|).start.hour == Stacked(days, slot).start.hour + 2
  {
    NextCycle(slot, |days|);
  }

  /** Over distinct days, different slots never share a time: the stacking
      calendar is injective. */
  lemma StackedInjective(days: seq<Hari>, s1: nat, s2: nat)
    requires |days| > 0 && Distinct(days)
    requires SameTime(Stacked(days, s1), Stacked(days, s2))
    ensures s1 == s2
  {
    var L := |days|;
    assert days[s1 % L] == days[s2 % L];
    QuotientRemainder(s1, s2, L);
  }

  /** `hari_list` of the greedy page. */
  const HariList: seq<Hari> := [Senin, Selasa, Rabu, Kamis, Jumat, Sabtu]

  /** `hari_list` names each of the six days once. */
  lemma HariListDistinct()
    ensures Distinct(HariList)
  {
  }

  /** `slot_to_hari_jam` of the greedy page. */
  function GreedySlot(slot: nat): (p: Period)
    ensures p.day in HariList
    ensures p.day == HariList[slot % 6]
    ensures p.start == Clock(8 + 2 * (slot / 6), 0)
    ensures p.end == Clock(9 + 2 * (slot / 6), 40)
  {
    Stacked(HariList, slot)
  }

  lemma GreedyInjective(s1: nat, s2: nat)
    requires SameTime(GreedySlot(s1), GreedySlot(s2))
    ensures s1 == s2
  {
    HariListDistinct();
    StackedInjective(HariList, s1, s2);
  }

  /** Slots 0 to 5 are the days of `hari_list` in order, at 08:00-09:40
      (the texts `FirstCycleTexts` spells out); slot 6 wraps to Monday
      10:00-11:40 (`SecondCycleTexts`). */
  lemma GreedyFirstCycle()
    ensures forall s :: 0 <= s < 6 ==>
      GreedySlot(s).start == Clock(8, 0) && GreedySlot(s).end == Clock(9, 40)
    ensures forall s :: 0 <= s < 6 ==> GreedySlot(s).day == HariList[s]
    ensures forall s, t :: 0 <= s < t < 6 ==> GreedySlot(s).day != GreedySlot(t).day
    ensures GreedySlot(6) == Period(Senin, Clock(10, 0), Clock(11, 40))
  {
    HariListDistinct();
    forall s | 0 <= s < 6
      ensures GreedySlot(s).start == Clock(8, 0) && GreedySlot(s).end == Clock(9, 40)
      ensures GreedySlot(s).day == HariList[s]
    {
      assert s / 6 == 0 && s % 6 == s;
    }
  }

  /** The table `mapping` of the DSATUR page: Monday to Friday, each 08:00 to
      09:40. */
  const DsaturTable: seq<Period> := [
    Period(Senin, Clock(8, 0), Clock(9, 40)),
    Period(Selasa, Clock(8, 0), Clock(9, 40)),
    Period(Rabu, Clock(8, 0), Clock(9, 40)),
    Period(Kamis, Clock(8, 0), Clock(9, 40)),
    Period(Jumat, Clock(8, 0), Clock(9, 40))
  ]

  /** `slot_to_hari_jam` of the DSATUR page as written: `mapping[slot % 5]`. */
  function DsaturSlot(slot: nat): (p: Period)
    ensures p in DsaturTable
    ensures p == DsaturTable[slot % 5]
    ensures p.start == Clock(8, 0) && p.end == Clock(9, 40)
  {
    DsaturTable[slot % |DsaturTable|]
  }

  /** The table calendar repeats every five slots, so slots `c` and `c + 5`
      share a time. */
  lemma DsaturPeriodic(slot: nat)
    ensures DsaturSlot(slot + 5) == DsaturSlot(slot)
  {
    NextCycle(slot, 5);
  }

  /** Within one cycle the table calendar gives different slots different
      days. */
  lemma DsaturInjectiveBelowFive(s1: nat, s2: nat)
    requires s1 < 5 && s2 < 5
    requires SameTime(DsaturSlot(s1), DsaturSlot(s2))
    ensures s1 == s2
  {
  }

  /** The five weekdays of the DSATUR table. */
  const Weekdays: seq<Hari> := [Senin, Selasa, Rabu, Kamis, Jumat]

  /** The DSATUR calendar as evidently intended: the same five days, later
      cycles stacked two hours on like the greedy page, so no two slots
      share a time. */
  function DsaturSlotStacked(slot: nat): (p: Period)
    ensures p.day in Weekdays
    ensures p.start == Clock(8 + 2 * (slot / 5), 0)
  {
    Stacked(Weekdays, slot)
  }

  /** The stacked calendar agrees with the table on the table's five slots. */
  lemma StackedExtendsTable(slot: nat)
    requires slot < 5
    ensures DsaturSlotStacked(slot) == DsaturSlot(slot)
  {
  }

  lemma DsaturStackedInjective(s1: nat, s2: nat)
    requires SameTime(DsaturSlotStacked(s1), DsaturSlotStacked(s2))
    ensures s1 == s2
  {
    StackedInjective(Weekdays, s1, s2);
  }
}
