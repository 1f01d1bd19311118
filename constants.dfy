/** The fixed table of day regions (morning, afternoon, evening) that every
    generated day is cut into. Offsets are durations from the start of the day,
    in milliseconds. */
module Constants {

  const SecondMs: int := 1000
  const MinuteMs: int := 60 * SecondMs
  const HourMs: int := 60 * MinuteMs
  const DayMs: int := 24 * HourMs

  /** One entry of the region table: a stable id, a display name and glyph, and
      the offsets of the region's start and end from the start of the day. */
  datatype RegionDef = RegionDef(id: string, name: string, start: int, end: int, emoji: string)

  const REGIONS: seq<RegionDef> := [
    RegionDef("am", "Morning", 6 * HourMs, 12 * HourMs, "\U{1F31E}"),
    RegionDef("pm", "Afternoon", 12 * HourMs, 17 * HourMs, "\U{26C5}"),
    RegionDef("eve", "Evening", 17 * HourMs, 24 * HourMs, "\U{2728}")
  ]

  /** The length of a region definition. */
  function Span(def: RegionDef): int {
    def.end - def.start
  }

  /** `defs` is a gap-free, overlap-free run of non-empty regions from offset
      `first` to offset `last`, in ascending order. */
  predicate CoversContiguously(defs: seq<RegionDef>, first: int, last: int) {
    && |defs| > 0
    && defs[0].start == first
    && defs[|defs| - 1].end == last
    && (forall i :: 0 <= i < |defs| ==> defs[i].start < defs[i].end)
    && (forall i :: 0 <= i < |defs| - 1 ==> defs[i].end == defs[i + 1].start)
  }

  /** The ids of `defs` are pairwise distinct. */
  predicate DistinctIds(defs: seq<RegionDef>) {
    forall i, j :: 0 <= i < j < |defs| ==> defs[i].id != defs[j].id
  }

  /** The table has exactly three regions, am, pm and eve in that order, with
      distinct ids. */
  lemma RegionTableOrder()
    ensures |REGIONS| == 3
    ensures REGIONS[0].id == "am" && REGIONS[1].id == "pm" && REGIONS[2].id == "eve"
    ensures DistinctIds(REGIONS)
  {
  }

  /** The regions run contiguously from 06:00 to the next midnight, so the
      span 00:00-06:00 belongs to no region; their lengths are 6h, 5h and 7h. */
  lemma RegionTablePartition()
    ensures CoversContiguously(REGIONS, 6 * HourMs, DayMs)
    ensures REGIONS[0].end == REGIONS[1].start == 12 * HourMs
    ensures REGIONS[1].end == REGIONS[2].start == 17 * HourMs
    ensures Span(REGIONS[0]) == 6 * HourMs
    ensures Span(REGIONS[1]) == 5 * HourMs
    ensures Span(REGIONS[2]) == 7 * HourMs
  {
  }

  /** In a contiguous run, the regions are sorted by start and each lies within
      [first, last]; in particular no two regions overlap. */
  lemma {:induction false} ContiguousIsOrdered(defs: seq<RegionDef>, first: int, last: int, i: int, j: int)
    requires CoversContiguously(defs, first, last)
    requires 0 <= i < j < |defs|
    ensures first <= defs[i].start < defs[i].end <= defs[j].start < defs[j].end <= last
  {
    if j == i + 1 {
      StartsFromFirst(defs, first, last, i);
      EndsBeforeLast(defs, first, last, j);
    } else {
      ContiguousIsOrdered(defs, first, last, i, j - 1);
      assert defs[j - 1].end == defs[j].start;
      EndsBeforeLast(defs, first, last, j);
    }
  }

  /** The three regions of the table do not overlap: each ends no later than
      any later one starts. */
  lemma RegionsDisjoint()
    ensures forall i, j :: 0 <= i < j < |REGIONS| ==> REGIONS[i].end <= REGIONS[j].start
  {
    RegionTablePartition();
    forall i, j | 0 <= i < j < |REGIONS|
      ensures REGIONS[i].end <= REGIONS[j].start
    {
      ContiguousIsOrdered(REGIONS, 6 * HourMs, DayMs, i, j);
    }
  }

  lemma {:induction false} StartsFromFirst(defs: seq<RegionDef>, first: int, last: int, i: int)
    requires CoversContiguously(defs, first, last)
    requires 0 <= i < |defs|
    ensures first <= defs[i].start
  {
    if i > 0 {
      StartsFromFirst(defs, first, last, i - 1);
      assert defs[i - 1].end == defs[i].start;
    }
  }

  lemma {:induction false} EndsBeforeLast(defs: seq<RegionDef>, first: int, last: int, i: int)
    requires CoversContiguously(defs, first, last)
    requires 0 <= i < |defs|
    ensures defs[i].end <= last
    decreases |defs| - i
  {
    if i < |defs| - 1 {
      EndsBeforeLast(defs, first, last, i + 1);
      assert defs[i].end == defs[i + 1].start;
    }
  }
}
