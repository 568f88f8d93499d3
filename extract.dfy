/**
 * Row shaping: turning the rendered table's `role='row'` elements into
 * `[year] + cells` rows, in document order.
 */
module Extract {
  import opened Wrappers
  import opened PyStr
  import opened Records

  /** What the HTML parser yields for one `role='row'` element: the text of its
      first `role='rowheader'` descendant, if there is one, and the texts of
      its `role='gridcell'` descendants in document order. */
  datatype DomRow = DomRow(header: Option<string>, cells: seq<string>)

  /** The cell rule as written: NULL when the stripped text is a lone
      non-breaking space, the raw text otherwise. Since `strip()` removes
      U+00A0 itself, the NULL branch can never be taken. */
  function NormalizeCell(text: string): (r: Field)
    ensures r == Some(text)
  {
    StripIsNeverNbsp(text);
    if Strip(text) != [Nbsp] then Some(text) else None
  }

  /** The list comprehension over a row's grid cells. */
  function NormalizeCells(cells: seq<string>): (r: seq<Field>)
    ensures |r| == |cells|
    ensures forall j | 0 <= j < |cells| :: r[j] == Some(cells[j])
  {
    seq(|cells|, j requires 0 <= j < |cells| => NormalizeCell(cells[j]))
  }

  /** The DOM rows that have a row header, in order. */
  function Headed(dom: seq<DomRow>): (h: seq<DomRow>)
    ensures |h| <= |dom|
    ensures forall k | 0 <= k < |h| :: h[k].header.Some? && h[k] in dom
    ensures forall i | 0 <= i < |dom| :: dom[i].header.Some? ==> dom[i] in h
  {
    if dom == [] then []
    else
      var front := Headed(dom[..|dom| - 1]);
      var last := dom[|dom| - 1];
      assert forall i | 0 <= i < |dom| - 1 :: dom[i] == dom[..|dom| - 1][i];
      if last.header.Some? then front + [last] else front
  }

  /** Headed rows keep their document order and multiplicity: filtering a
      concatenation filters each part in turn. */
  lemma {:induction false} HeadedAppend(a: seq<DomRow>, b: seq<DomRow>)
    ensures Headed(a + b) == Headed(a) + Headed(b)
    decreases |b|
  {
    if b == [] {
      assert a + b == a;
    } else {
      var front := b[..|b| - 1];
      assert (a + b)[..|a + b| - 1] == a + front;
      assert (a + b)[|a + b| - 1] == b[|b| - 1];
      HeadedAppend(a, front);
    }
  }

  /** A single DOM row is kept exactly when it has a row header. */
  lemma HeadedSingle(d: DomRow)
    ensures Headed([d]) == if d.header.Some? then [d] else []
  {
    assert [d][..0] == [];
  }

  /** `row` is what `d` becomes: its parsed year followed by its raw cell texts. */
  predicate KeptRaw(row: Row, d: DomRow, parse: string -> Option<int>) {
    && d.header.Some?
    && parse(d.header.value) == Some(row.year)
    && |row.cells| == |d.cells|
    && forall j | 0 <= j < |d.cells| :: row.cells[j] == Some(d.cells[j])
  }

  /** Every row header parses as a year. */
  predicate AllYearsParse(dom: seq<DomRow>, parse: string -> Option<int>) {
    forall i | 0 <= i < |dom| :: dom[i].header.Some? ==> parse(dom[i].header.value).Some?
  }

  /** The extraction loop. `parse` stands for `int(row_header.text)`; when it
      fails the whole run stops (Python raises), which is `None` here. Rows
      without a header are skipped; every other row is kept, in order. */
  function ShapeRows(dom: seq<DomRow>, parse: string -> Option<int>): (r: Option<seq<Row>>)
    ensures r.Some? <==> AllYearsParse(dom, parse)
    ensures r.Some? ==> |r.value| == |Headed(dom)|
    ensures r.Some? ==> forall k | 0 <= k < |r.value| :: KeptRaw(r.value[k], Headed(dom)[k], parse)
  {
    if dom == [] then Some([])
    else
      var prefix := dom[..|dom| - 1];
      var last := dom[|dom| - 1];
      assert forall i | 0 <= i < |dom| - 1 :: dom[i] == prefix[i];
      match ShapeRows(prefix, parse)
      case None => None
      case Some(rows) =>
        match last.header
        case None => Some(rows)
        case Some(text) =>
          match parse(text)
          case None => None
          case Some(year) => Some(rows + [Row(year, NormalizeCells(last.cells))])
  }

  /** Once a prefix of the DOM rows aborts, the whole extraction aborts. */
  lemma {:induction false} AbortPersists(dom: seq<DomRow>, i: nat, parse: string -> Option<int>)
    requires i <= |dom|
    requires ShapeRows(dom[..i], parse).None?
    ensures ShapeRows(dom, parse).None?
    decreases |dom|
  {
    if i == |dom| {
      assert dom[..i] == dom;
    } else {
      var prefix := dom[..|dom| - 1];
      assert prefix[..i] == dom[..i];
      AbortPersists(prefix, i, parse);
    }
  }

  /** The `for row in table_rows` loop that appends each shaped row to `rows`. */
  method ExtractRows(dom: seq<DomRow>, parse: string -> Option<int>) returns (rows: Option<seq<Row>>)
    ensures rows == ShapeRows(dom, parse)
  {
    var acc: seq<Row> := [];
    var i := 0;
    while i < |dom|
      invariant 0 <= i <= |dom|
      invariant ShapeRows(dom[..i], parse) == Some(acc)
    {
      assert dom[..i + 1][..i] == dom[..i];
      var row := dom[i];
      assert dom[..i + 1][i] == row;
      match row.header {
        case None =>
        case Some(text) =>
          match parse(text) {
            case None =>
              AbortPersists(dom, i + 1, parse);
              return None;
            case Some(year) =>
              acc := acc + [Row(year, NormalizeCells(row.cells))];
          }
      }
      i := i + 1;
    }
    assert dom[..i] == dom;
    rows := Some(acc);
  }
}
