/**
 * The `PowerBIData` table as a map from year to its thirteen columns, the
 * per-row upsert and the loop that upserts every extracted row in order.
 */
module Store {
  import opened Wrappers
  import opened Records
  import opened Merge
  import opened Extract

  type Contents = map<int, seq<Field>>

  /** Every stored row has one value per non-key column. */
  ghost predicate WellShaped(m: Contents) {
    forall y | y in m :: |m[y]| == Width
  }

  ghost predicate AllWellFormed(rs: seq<Row>) {
    forall i | 0 <= i < |rs| :: WellFormed(rs[i])
  }

  /** The years of a sequence of rows. */
  ghost function Years(rs: seq<Row>): set<int> {
    set i | 0 <= i < |rs| :: rs[i].year
  }

  /** The table after one upsert: insert the row as extracted when its year is
      absent, otherwise merge it into the stored row. */
  ghost function Upserted(m: Contents, r: Row): (m': Contents)
    requires WellShaped(m) && WellFormed(r)
    ensures WellShaped(m')
    ensures m'.Keys == m.Keys + {r.year}
    ensures forall y | y in m && y != r.year :: m'[y] == m[y]
    ensures r.year !in m ==> m'[r.year] == r.cells
    ensures r.year in m ==> m'[r.year] == MergeFields(m[r.year], r.cells)
  {
    if r.year in m then m[r.year := MergeFields(m[r.year], r.cells)] else m[r.year := r.cells]
  }

  /** The table after upserting `rs` one after another. */
  ghost function UpsertAll(m: Contents, rs: seq<Row>): (m': Contents)
    requires WellShaped(m) && AllWellFormed(rs)
    ensures WellShaped(m')
    ensures m'.Keys == m.Keys + Years(rs)
  {
    if rs == [] then m
    else
      var front := rs[..|rs| - 1];
      assert Years(rs) == Years(front) + {rs[|rs| - 1].year} by {
        assert forall i | 0 <= i < |front| :: front[i] == rs[i];
      }
      Upserted(UpsertAll(m, front), rs[|rs| - 1])
  }

  /** How many leading rows the SQL statements accept; the first row after
      them makes `execute` (or the index in `update_data`) raise. */
  function WellFormedPrefix(rs: seq<Row>): (n: nat)
    ensures n <= |rs|
    ensures forall i | 0 <= i < n :: WellFormed(rs[i])
    ensures n < |rs| ==> !WellFormed(rs[n])
  {
    if rs == [] || !WellFormed(rs[0]) then 0 else 1 + WellFormedPrefix(rs[1..])
  }

  /** A whole run: extraction either aborts, leaving the table untouched, or
      yields rows that are upserted until the first one SQL rejects. */
  ghost function RunResult(m: Contents, dom: seq<DomRow>, parse: string -> Option<int>): (m': Contents)
    requires WellShaped(m)
    ensures WellShaped(m')
    ensures m.Keys <= m'.Keys
  {
    match ShapeRows(dom, parse)
    case None => m
    case Some(rs) => UpsertAll(m, rs[..WellFormedPrefix(rs)])
  }

  /** When every header parses and every headed row has thirteen cells, the
      run stores a row for the year of every headed DOM row. */
  lemma RunStoresEveryYear(m: Contents, dom: seq<DomRow>, parse: string -> Option<int>, i: nat)
    requires WellShaped(m)
    requires AllYearsParse(dom, parse)
    requires forall t | 0 <= t < |dom| :: dom[t].header.Some? ==> |dom[t].cells| == Width
    requires i < |dom| && dom[i].header.Some?
    ensures parse(dom[i].header.value).value in RunResult(m, dom, parse)
  {
    var rs := ShapeRows(dom, parse).value;
    var h := Headed(dom);
    assert dom[i] in h;
    var k :| 0 <= k < |h| && h[k] == dom[i];
    assert KeptRaw(rs[k], h[k], parse);
    assert AllWellFormed(rs) by {
      forall t | 0 <= t < |rs| ensures WellFormed(rs[t]) {
        assert KeptRaw(rs[t], h[t], parse);
        assert h[t] in dom;
      }
    }
    assert WellFormedPrefix(rs) == |rs|;
    assert rs[..|rs|] == rs;
    assert rs[k].year in Years(rs);
  }

  /** Column `k` of the row stored under `y`, NULL when there is none. */
  ghost function Cell(m: Contents, y: int, k: nat): Field {
    if y in m && k < |m[y]| then m[y][k] else None
  }

  /** Column `k` of every row for year `y`, in order. */
  ghost function Trace(rs: seq<Row>, y: int, k: nat): seq<Field>
    requires AllWellFormed(rs) && k < Width
  {
    if rs == [] then []
    else
      var front := Trace(rs[..|rs| - 1], y, k);
      var last := rs[|rs| - 1];
      if last.year == y then front + [last.cells[k]] else front
  }

  /** An upsert acts on each column of its own year as one merge step (an
      absent row behaves like a row of NULLs) and on nothing else. */
  lemma UpsertCell(m: Contents, r: Row, y: int, k: nat)
    requires WellShaped(m) && WellFormed(r) && k < Width
    ensures Cell(Upserted(m, r), y, k) ==
            if y == r.year then MergeField(Cell(m, y, k), r.cells[k]) else Cell(m, y, k)
  {
  }

  /** After a series of upserts, each column holds the fold of the merge rule
      over the values scraped for it. */
  lemma {:induction false} UpsertAllCell(m: Contents, rs: seq<Row>, y: int, k: nat)
    requires WellShaped(m) && AllWellFormed(rs) && k < Width
    ensures Cell(UpsertAll(m, rs), y, k) == FoldField(Cell(m, y, k), Trace(rs, y, k))
  {
    if rs != [] {
      var front := rs[..|rs| - 1];
      var last := rs[|rs| - 1];
      UpsertAllCell(m, front, y, k);
      UpsertCell(UpsertAll(m, front), last, y, k);
      var t := Trace(front, y, k);
      if last.year == y {
        assert (t + [last.cells[k]])[..|t|] == t;
      }
    }
  }

  /** Two well-shaped tables with the same years and the same columns are equal. */
  lemma CellsDetermineTable(a: Contents, b: Contents)
    requires WellShaped(a) && WellShaped(b) && a.Keys == b.Keys
    requires forall y, k | y in a && 0 <= k < Width :: Cell(a, y, k) == Cell(b, y, k)
    ensures a == b
  {
    forall y | y in a ensures a[y] == b[y] {
      forall k | 0 <= k < Width ensures a[y][k] == b[y][k] {
        assert Cell(a, y, k) == Cell(b, y, k);
      }
    }
  }

  /** Running the same rows again after they have been upserted changes nothing. */
  lemma RerunIdempotent(m: Contents, rs: seq<Row>)
    requires WellShaped(m) && AllWellFormed(rs)
    ensures UpsertAll(UpsertAll(m, rs), rs) == UpsertAll(m, rs)
  {
    var once := UpsertAll(m, rs);
    var twice := UpsertAll(once, rs);
    forall y, k | y in once && 0 <= k < Width ensures Cell(twice, y, k) == Cell(once, y, k) {
      UpsertAllCell(m, rs, y, k);
      UpsertAllCell(once, rs, y, k);
      FoldFieldIdempotent(Cell(m, y, k), Trace(rs, y, k));
    }
    CellsDetermineTable(twice, once);
  }

  /** A column that is set keeps its value through any later series of upserts. */
  lemma SetFieldsStable(m: Contents, rs: seq<Row>, y: int, k: nat)
    requires WellShaped(m) && AllWellFormed(rs)
    requires y in m && k < Width && !IsUnset(m[y][k])
    ensures y in UpsertAll(m, rs) && UpsertAll(m, rs)[y][k] == m[y][k]
  {
    UpsertAllCell(m, rs, y, k);
  }

  /** A row whose year an earlier row of the same run already had is merged
      into the stored row, never inserted a second time. */
  lemma LaterRowIsMerged(m: Contents, rs: seq<Row>, i: nat, j: nat)
    requires WellShaped(m) && AllWellFormed(rs)
    requires i < j < |rs| && rs[i].year == rs[j].year
    ensures rs[j].year in UpsertAll(m, rs[..j])
    ensures UpsertAll(m, rs[..j + 1])[rs[j].year] ==
            MergeFields(UpsertAll(m, rs[..j])[rs[j].year], rs[j].cells)
  {
    var front, upto := rs[..j], rs[..j + 1];
    assert AllWellFormed(front) && AllWellFormed(upto) by {
      assert forall t | 0 <= t < |upto| :: upto[t] == rs[t];
    }
    assert front[i] == rs[i];
    assert rs[j].year in Years(front);
    assert upto[..|upto| - 1] == front && upto[|upto| - 1] == rs[j];
    var before := UpsertAll(m, front);
    assert UpsertAll(m, upto) == Upserted(before, rs[j]);
  }

  /** Upserting the same row twice leaves the table as one upsert does. */
  lemma UpsertIdempotent(m: Contents, r: Row)
    requires WellShaped(m) && WellFormed(r)
    ensures Upserted(Upserted(m, r), r) == Upserted(m, r)
  {
    if r.year in m {
      MergeIdempotent(m[r.year], r.cells);
    } else {
      MergeSelf(r.cells);
    }
  }

  /** Repeating a whole run on the same rendered page changes nothing. */
  lemma RunIdempotent(m: Contents, dom: seq<DomRow>, parse: string -> Option<int>)
    requires WellShaped(m)
    ensures RunResult(RunResult(m, dom, parse), dom, parse) == RunResult(m, dom, parse)
  {
    match ShapeRows(dom, parse)
    case None =>
    case Some(rs) =>
      RerunIdempotent(m, rs[..WellFormedPrefix(rs)]);
  }

  class Table {
    var rows: Contents

    ghost predicate Valid()
      reads this
    {
      WellShaped(rows)
    }

    /** An empty table, as `CREATE TABLE IF NOT EXISTS` leaves it on first use. */
    constructor ()
      ensures Valid() && rows == map[]
    {
      rows := map[];
    }

    /** `data_exists`: the stored row for `year`, if any. */
    method DataExists(year: int) returns (existing: Option<seq<Field>>)
      requires Valid()
      ensures existing.Some? <==> year in rows
      ensures existing.Some? ==> existing.value == rows[year] && |existing.value| == Width
    {
      if year in rows {
        existing := Some(rows[year]);
      } else {
        existing := None;
      }
    }

    /** `insert_data`: fails on a duplicate key or a wrong number of values. */
    method InsertData(r: Row) returns (ok: bool)
      requires Valid()
      modifies this
      ensures Valid()
      ensures ok == (r.year !in old(rows) && WellFormed(r))
      ensures rows == if ok then old(rows)[r.year := r.cells] else old(rows)
    {
      ok := r.year !in rows && WellFormed(r);
      if ok {
        rows := rows[r.year := r.cells];
      }
    }

    /** `update_data`: merge `r` into `existing` and write the merged columns
        under `r.year`. A row of the wrong width makes Python raise (too few
        SQL parameters, or an index past `existing`) before anything is written;
        a year with no stored row is an UPDATE that matches nothing. */
    method UpdateData(existing: seq<Field>, r: Row) returns (ok: bool)
      requires Valid() && |existing| == Width
      modifies this
      ensures Valid()
      ensures ok == WellFormed(r)
      ensures rows == if ok && r.year in old(rows)
                      then old(rows)[r.year := MergeFields(existing, r.cells)]
                      else old(rows)
    {
      ok := WellFormed(r);
      if ok {
        var updated := BuildUpdatedData(existing, r.cells);
        if r.year in rows {
          rows := rows[r.year := updated];
        }
      }
    }

    /** The body of the upsert loop: look the year up, then update or insert. */
    method Upsert(r: Row) returns (ok: bool)
      requires Valid()
      modifies this
      ensures Valid()
      ensures ok == WellFormed(r)
      ensures rows == if ok then Upserted(old(rows), r) else old(rows)
    {
      var existing := DataExists(r.year);
      match existing {
        case Some(e) =>
          ok := UpdateData(e, r);
        case None =>
          ok := InsertData(r);
      }
    }

    /** The loop over the extracted rows, committing after each one. It stops
        at the first row SQL rejects; the rows before it stay committed. */
    method ProcessRows(rs: seq<Row>) returns (ok: bool)
      requires Valid()
      modifies this
      ensures Valid()
      ensures ok == (WellFormedPrefix(rs) == |rs|)
      ensures rows == UpsertAll(old(rows), rs[..WellFormedPrefix(rs)])
    {
      var i := 0;
      while i < |rs|
        invariant 0 <= i <= WellFormedPrefix(rs)
        invariant Valid()
        invariant rows == UpsertAll(old(rows), rs[..i])
      {
        var done := Upsert(rs[i]);
        if !done {
          return false;
        }
        assert rs[..i + 1][..i] == rs[..i];
        i := i + 1;
      }
      ok := true;
    }

    /** `scrape_powerbi_table` from the parsed page on: give up when the page
        has no rows, extract, then upsert. `ok` is false when the run ends by
        raising: a row header `int()` rejects, or a row SQL rejects. A page
        without rows returns normally. */
    method Scrape(dom: seq<DomRow>, parse: string -> Option<int>) returns (ok: bool)
      requires Valid()
      modifies this
      ensures Valid()
      ensures ok == match ShapeRows(dom, parse)
                    case None => false
                    case Some(rs) => WellFormedPrefix(rs) == |rs|
      ensures rows == RunResult(old(rows), dom, parse)
    {
      if dom == [] {
        return true;
      }
      var extracted := ExtractRows(dom, parse);
      match extracted {
        case None =>
          ok := false;
        case Some(rs) =>
          ok := ProcessRows(rs);
      }
    }
  }
}
