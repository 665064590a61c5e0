/**
 * The orchestrators' results on in-memory lists, with the data loader the
 * repository's tests use: `items.slice(0, first)` as edges.
 */
module Scenarios {
  import opened Wrappers
  import opened CursorTypes
  import opened PaginatedConnection
  import CursorCodec
  import MysqlAdapter

  /** A stored document: its id and name. */
  datatype Doc = Doc(id: string, name: string)

  /** A generic data loader over a list: the first `first` items, and whether the list holds more. */
  function ListResult<N>(items: seq<N>, cursorOf: N -> string): LoaderArgs -> LoaderResult<N>
  {
    (a: LoaderArgs) => LoaderResult(ListEdges(items, a.first, cursorOf), |items| > a.first)
  }

  /** The MySQL adapter's cursor for a document: its id as `after`, written as text. */
  function MysqlCursorOf(d: Doc): string
  {
    MysqlAdapter.EncodeCursor(d, (n: Doc) => [("after", Str(n.id))])
  }

  /**
   * With `pagination: null`, a safe limit of 100 and five items, the generic
   * orchestrator returns all five items in order, reports no next page, never
   * consults the decoder, and `totalCount()` is the count loader's answer.
   */
  lemma NoPaginationScenario(items: seq<Doc>, cursorOf: Doc -> string)
    requires |items| == 5
    ensures var r := PaginatedConnection.Paginate(None, 100, (t: string) => map["after" := "foobar"],
                                                  ListResult(items, cursorOf));
            && |r.edges| == 5
            && (forall i :: 0 <= i < 5 ==> r.edges[i] == Edge(items[i], cursorOf(items[i])))
            && !r.pageInfo.hasNextPage
            && r.pageInfo.endCursor == Some(cursorOf(items[4]))
            && r.countArgs == map[]
            && TotalCount(r, (f: Fields) => 5) == 5
  {
    var a := LoaderArgsFor(None, 100, (t: string) => map["after" := "foobar"]);
    assert a.first == 100;
    assert SliceTo(items, 100) == items;
  }

  /**
   * The MySQL adapter with `first: 2`, a safe limit of 100 and five items: the
   * loader is asked for three, two edges come back with `hasNextPage`, and the
   * end cursor is the second item's.
   */
  lemma MysqlFirstTwoPage(items: seq<Doc>, cursorOf: Doc -> string)
    requires |items| == 5
    ensures var p := Some(PaginationInput(None, Some(2)));
            var r := MysqlAdapter.Paginate(p, 100, MysqlAdapter.ListLoader(items, cursorOf));
            && MysqlAdapter.LoaderArgsOf(100, p, MysqlAdapter.ResolvedFirst(100, p)).first == 3
            && r.edges == ListEdges(items, 2, cursorOf)
            && r.pageInfo.hasNextPage
            && r.pageInfo.endCursor == Some(cursorOf(items[1]))
            && TotalCount(r, (f: Fields) => 5) == 5
  {
    var p := Some(PaginationInput(None, Some(2)));
    var loader := MysqlAdapter.ListLoader(items, cursorOf);
    MysqlAdapter.OverFetchByOne(p, 100, loader, 2);
    var loaded := loader(MysqlAdapter.LoaderArgsOf(100, p, MysqlAdapter.ResolvedFirst(100, p)));
    assert loaded == ListEdges(items, 3, cursorOf);
    assert loaded[..2] == ListEdges(items, 2, cursorOf);
  }

  /** A document's MySQL cursor is the token of the one field `after: id`. */
  lemma MysqlCursorFields(d: Doc)
    ensures MysqlCursorOf(d) == MysqlAdapter.EncodeFields([("after", Str(d.id))])
  {
  }

  /** The object of the one string field `after: id`. */
  lemma AfterAsFields(id: string)
    ensures MysqlAdapter.AsFields([("after", Str(id))]) == map["after" := id]
  {
    var c: Cursor := [("after", Str(id))];
    assert c[0].0 == "after";
  }

  /** A document's MySQL cursor decodes to its id as `after`. */
  lemma MysqlCursorDecodes(d: Doc)
    ensures CursorCodec.DecodeCursor(MysqlCursorOf(d)) == map["after" := d.id]
  {
    MysqlCursorFields(d);
    MysqlAdapter.RoundTrip([("after", Str(d.id))]);
    AfterAsFields(d.id);
  }

  /** The scenario end to end: the end cursor of the first page decodes to the second item's id. */
  lemma MysqlFirstTwoScenario(items: seq<Doc>)
    requires |items| == 5
    ensures var r := MysqlAdapter.Paginate(Some(PaginationInput(None, Some(2))), 100,
                                           MysqlAdapter.ListLoader(items, MysqlCursorOf));
            && |r.edges| == 2
            && r.pageInfo.hasNextPage
            && r.pageInfo.endCursor.Some?
            && CursorCodec.DecodeCursor(r.pageInfo.endCursor.value) == map["after" := items[1].id]
  {
    MysqlFirstTwoPage(items, MysqlCursorOf);
    MysqlCursorDecodes(items[1]);
  }

  /**
   * The MySQL adapter with `pagination: {}`, a safe limit of 2 and five items.
   * As written the page size and the loader's ceiling are both three, so three
   * edges come back, ending at the third item, and no next page is reported
   * although two items remain; the corrected adapter returns the two edges ending at the
   * second item that the repository's test for this case expects.
   */
  lemma MysqlDefaultPageScenario(items: seq<Doc>, cursorOf: Doc -> string)
    requires |items| == 5
    ensures var p := Some(PaginationInput(None, None));
            var r := MysqlAdapter.Paginate(p, 2, MysqlAdapter.ListLoader(items, cursorOf));
            && MysqlAdapter.LoaderArgsOf(2, p, MysqlAdapter.ResolvedFirst(2, p)).first == 3
            && r.edges == ListEdges(items, 3, cursorOf)
            && !r.pageInfo.hasNextPage
            && r.pageInfo.endCursor == Some(cursorOf(items[2]))
    ensures var p := Some(PaginationInput(None, None));
            var r := MysqlAdapter.PaginateIntended(p, 2, MysqlAdapter.ListLoader(items, cursorOf));
            && r.edges == ListEdges(items, 2, cursorOf)
            && r.pageInfo.hasNextPage
            && r.pageInfo.endCursor == Some(cursorOf(items[1]))
  {
    var p := Some(PaginationInput(None, None));
    var loader := MysqlAdapter.ListLoader(items, cursorOf);
    MysqlAdapter.PageSizeWithoutRequest(p, 2, loader);
    var loaded := loader(MysqlAdapter.LoaderArgsOf(2, p, 3));
    assert loaded == ListEdges(items, 3, cursorOf);
    MysqlAdapter.IntendedPageSize(p, 2, items, cursorOf);
  }
}
