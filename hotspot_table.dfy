/** The hotspot table of `backend/geospatial/hotspot_table.py`: each H3 cell
    of the aggregate table gets the city of its first incident, the cells are
    ranked by incident count, the first `top_n` kept and numbered from 1.
    Reading the two CSV files is left out: the two tables are the inputs. */
module HotspotTable {
  import opened Base
  import opened Sorting

  /** One row of `incidents_with_h3.csv`: its cell and `Incident_City`. */
  datatype IncidentRow = IncidentRow(h3: string, city: Option<string>)

  /** One row of `h3_hex_summary.csv`. */
  datatype CellRow = CellRow(h3: string, incidents: int, avgOnScene: real)

  /** A row of the left merge: the aggregate row and the city found for it. */
  datatype MergedRow = MergedRow(h3: string, incidents: int, avgOnScene: real, city: Option<string>)

  /** A row of the returned table; its fields are the output columns in
      order: `rank`, `h3_cell_id`, `city`, `total_incidents`,
      `avg_on_scene_time_min`. The on-scene time is the aggregate's value;
      its rounding to two decimals is not modelled. */
  datatype Hotspot = Hotspot(rank: nat, h3CellId: string, city: Option<string>, totalIncidents: int, avgOnSceneTimeMin: real)

  /** `drop_duplicates(subset=["h3"])` followed by the lookup of the merge:
      the city of the first incident row in `cell`; `None` when there is no
      such row or its city is missing. */
  function CityOf(incidents: seq<IncidentRow>, cell: string): (c: Option<string>)
    ensures c.Some? ==> exists i :: 0 <= i < |incidents| && incidents[i].h3 == cell && incidents[i].city == c
  {
    if incidents == [] then None
    else if incidents[0].h3 == cell then incidents[0].city
    else
      var c := CityOf(incidents[1..], cell);
      assert c.Some? ==> exists i :: 0 <= i < |incidents| && incidents[i].h3 == cell && incidents[i].city == c by {
        if c.Some? {
          var i :| 0 <= i < |incidents[1..]| && incidents[1..][i].h3 == cell && incidents[1..][i].city == c;
          assert incidents[i + 1] == incidents[1..][i];
        }
      }
      c
  }

  /** The city is taken from the first row of the cell: rows before it are of
      other cells. */
  lemma {:induction false} CityIsFirstRows(incidents: seq<IncidentRow>, cell: string, i: nat)
    requires i < |incidents| && incidents[i].h3 == cell
    requires forall j :: 0 <= j < i ==> incidents[j].h3 != cell
    ensures CityOf(incidents, cell) == incidents[i].city
    decreases i
  {
    if i > 0 {
      CityIsFirstRows(incidents[1..], cell, i - 1);
    }
  }

  /** A cell with no incident row gets no city. */
  lemma {:induction false} UnmatchedCellHasNoCity(incidents: seq<IncidentRow>, cell: string)
    requires forall j :: 0 <= j < |incidents| ==> incidents[j].h3 != cell
    ensures CityOf(incidents, cell) == None
    decreases |incidents|
  {
    if incidents != [] {
      UnmatchedCellHasNoCity(incidents[1..], cell);
    }
  }

  /** The left merge keeps every aggregate row, in order, and adds its city. */
  function Merge(cells: seq<CellRow>, incidents: seq<IncidentRow>): (m: seq<MergedRow>)
    ensures |m| == |cells|
    ensures forall i :: 0 <= i < |cells| ==>
              m[i] == MergedRow(cells[i].h3, cells[i].incidents, cells[i].avgOnScene, CityOf(incidents, cells[i].h3))
  {
    seq(|cells|, i requires 0 <= i < |cells| =>
      MergedRow(cells[i].h3, cells[i].incidents, cells[i].avgOnScene, CityOf(incidents, cells[i].h3)))
  }

  function Incidents(r: MergedRow): int { r.incidents }

  /** `sort_values("incidents", ascending=False).head(top_n)`: at most
      `top_n` of the merged rows, largest incident count first. */
  function TopCells(merged: seq<MergedRow>, topN: int): (r: seq<MergedRow>)
    ensures topN >= 0 ==> |r| <= topN
    ensures NonIncreasing(r, Incidents)
    ensures multiset(r) <= multiset(merged)
  {
    var sorted := SortDesc(merged, Incidents);
    SortDescNonIncreasing(merged, Incidents);
    var r := Take(sorted, topN);
    assert sorted == r + sorted[|r|..];
    assert multiset(sorted) == multiset(r) + multiset(sorted[|r|..]);
    r
  }

  /** The `rank` column and the column selection. */
  function Ranked(top: seq<MergedRow>): (t: seq<Hotspot>)
    ensures |t| == |top|
    ensures forall i :: 0 <= i < |top| ==>
              t[i] == Hotspot(i + 1, top[i].h3, top[i].city, top[i].incidents, top[i].avgOnScene)
  {
    seq(|top|, i requires 0 <= i < |top| =>
      Hotspot(i + 1, top[i].h3, top[i].city, top[i].incidents, top[i].avgOnScene))
  }

  /** `generate_hotspot_table(top_n)`: at most `top_n` rows (all but the last
      `-top_n` for a negative `top_n`, as `head` does), ranked 1..n, by
      incident count largest first, each carrying its cell's first city. */
  function GenerateHotspotTable(incidents: seq<IncidentRow>, cells: seq<CellRow>, topN: int): (t: seq<Hotspot>)
    ensures |t| <= |cells|
    ensures topN >= 0 ==> |t| == if topN < |cells| then topN else |cells|
    ensures forall i :: 0 <= i < |t| ==> t[i].rank == i + 1
    ensures forall i, j :: 0 <= i < j < |t| ==> t[i].totalIncidents >= t[j].totalIncidents
    ensures forall i :: 0 <= i < |t| ==> t[i].city == CityOf(incidents, t[i].h3CellId)
  {
    var top := TopCells(Merge(cells, incidents), topN);
    TopCellsOrdered(incidents, cells, topN);
    Ranked(top)
  }

  /** The kept rows come largest first, and each carries the city of its
      own cell. */
  lemma {:induction false} TopCellsOrdered(incidents: seq<IncidentRow>, cells: seq<CellRow>, topN: int)
    ensures var top := TopCells(Merge(cells, incidents), topN);
            (forall i, j :: 0 <= i < j < |top| ==> top[i].incidents >= top[j].incidents) &&
            (forall i :: 0 <= i < |top| ==> top[i].city == CityOf(incidents, top[i].h3))
  {
    var merged := Merge(cells, incidents);
    var sorted := SortDesc(merged, Incidents);
    SortDescNonIncreasing(merged, Incidents);
    var top := TopCells(merged, topN);
    forall i | 0 <= i < |top| ensures top[i].city == CityOf(incidents, top[i].h3) {
      assert top[i] == sorted[i];
      assert top[i] in multiset(merged);
      var k :| 0 <= k < |merged| && merged[k] == top[i];
    }
  }

  /** Every table row comes from a distinct aggregate row: the rows of the
      table, without their rank, are a sub-multiset of the merge. */
  lemma {:induction false} TableRowsFromCells(incidents: seq<IncidentRow>, cells: seq<CellRow>, topN: int)
    ensures multiset(TopCells(Merge(cells, incidents), topN)) <= multiset(Merge(cells, incidents))
    ensures GenerateHotspotTable(incidents, cells, topN) == Ranked(TopCells(Merge(cells, incidents), topN))
  {
    var merged := Merge(cells, incidents);
    var sorted := SortDesc(merged, Incidents);
    var top := TopCells(merged, topN);
    assert sorted == top + sorted[|top|..];
    assert multiset(sorted) == multiset(top) + multiset(sorted[|top|..]);
  }

  /** The table holds the busiest cells: every merged row left out has no
      more incidents than any row kept. */
  lemma {:induction false} LeftOutCellsAreNotBusier(incidents: seq<IncidentRow>, cells: seq<CellRow>, topN: int, out: MergedRow, kept: MergedRow)
    requires out in multiset(Merge(cells, incidents)) - multiset(TopCells(Merge(cells, incidents), topN))
    requires kept in TopCells(Merge(cells, incidents), topN)
    ensures out.incidents <= kept.incidents
  {
    var merged := Merge(cells, incidents);
    var sorted := SortDesc(merged, Incidents);
    var top := TopCells(merged, topN);
    assert top == Take(sorted, topN);
    SortDescNonIncreasing(merged, Incidents);
    DroppedNotAbove(sorted, Incidents, |top|, out, kept);
  }
}
