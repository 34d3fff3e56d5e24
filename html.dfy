/** The parsed page as the extractor sees it, in place of BeautifulSoup's tree,
    and the page fetcher (the Selenium driver) as a function from URL to page. */
module Html {
  import opened Wrappers
  import opened Text

  datatype CellKind = Th | Td

  /** An `<a>` element; `href` is `None` when the attribute is absent. */
  datatype Anchor = Anchor(href: Option<string>)

  /** A `th` or `td` element: its class tokens, the text fragments under it in
      document order, and the first `<a>` element under it, if any. */
  datatype Cell = Cell(kind: CellKind, classes: seq<string>, fragments: seq<string>, anchor: Option<Anchor>)

  /** A `tr` element. */
  datatype Row = Row(cells: seq<Cell>)

  /** A `table` element: its class tokens in attribute order and its rows. */
  datatype Table = Table(classes: seq<string>, rows: seq<Row>)

  /** A rendered page: its tables in document order. */
  datatype Page = Page(tables: seq<Table>)

  /** The conditions that end an extraction. */
  datatype Error =
    | FetchError(url: string)       // the browser could not load the page
    | TableNotFound                 // no `table.wikitable.sortable` on the index page
    | NoHeaderRow                   // the index table has no `tr` at all
    | MissingUrl                    // the browser was handed `None` for a team link
    | MissingAttribute(name: string) // a name looked up on the extractor object does not exist

  /** The browser: loading a URL yields the rendered page or a failure. */
  type Web = string -> Result<Page, Error>

  /** Index of the first element satisfying `p`: BeautifulSoup's `find` and
      `select_one`, and a `for ... break` search. */
  function First<T>(xs: seq<T>, p: T -> bool): (r: Option<nat>)
    ensures r.Some? ==> r.value < |xs| && p(xs[r.value]) && forall j :: 0 <= j < r.value ==> !p(xs[j])
    ensures r.None? ==> forall j :: 0 <= j < |xs| ==> !p(xs[j])
  {
    if xs == [] then None
    else if p(xs[0]) then Some(0)
    else match First(xs[1..], p)
      case None => None
      case Some(i) => Some(i + 1)
  }

  /** `row.find_all("td")`. */
  function Tds(row: Row): seq<Cell> {
    OfKind(row.cells, Td)
  }

  /** `row.find_all("th")`. */
  function Ths(row: Row): seq<Cell> {
    OfKind(row.cells, Th)
  }

  /** The cells of one kind, in document order. */
  function OfKind(cells: seq<Cell>, kind: CellKind): (r: seq<Cell>)
    ensures forall k :: 0 <= k < |r| ==> r[k].kind == kind
  {
    if cells == [] then []
    else (if cells[0].kind == kind then [cells[0]] else []) + OfKind(cells[1..], kind)
  }

  /** Every cell of a table, row by row. */
  function AllCells(rows: seq<Row>): seq<Cell> {
    if rows == [] then [] else rows[0].cells + AllCells(rows[1..])
  }

  /** `table.get_text()`: every text fragment of the table, concatenated. */
  function TableText(t: Table): string {
    Concat(Fragments(AllCells(t.rows)))
  }

  function Fragments(cells: seq<Cell>): seq<string> {
    if cells == [] then [] else cells[0].fragments + Fragments(cells[1..])
  }

  /** The fragments of two runs of cells are those of the first followed by those of the second. */
  lemma {:induction false} FragmentsAppend(a: seq<Cell>, b: seq<Cell>)
    ensures Fragments(a + b) == Fragments(a) + Fragments(b)
  {
    if a != [] {
      FragmentsAppend(a[1..], b);
      assert (a + b)[1..] == a[1..] + b;
    } else {
      assert a + b == b;
    }
  }

  /** The class attribute holds every one of `required` (CSS `table.a.b`). */
  predicate HasClasses(classes: seq<string>, required: seq<string>) {
    forall k :: 0 <= k < |required| ==> required[k] in classes
  }
}
