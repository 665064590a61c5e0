/**
 * The relational adapter of `src/paginatedConnectionMysql.ts`. It asks the
 * generic orchestrator for one edge more than the page size (over-fetch by one),
 * decides `hasNextPage` from whether that extra edge came back, drops it, and
 * recomputes `endCursor` from the edges it keeps. Its codec writes field values
 * as text (no JSON quoting), so decoding a token gives back the cursor.
 */
module MysqlAdapter {
  import opened Wrappers
  import opened CursorTypes
  import CursorCodec
  import Base64Url
  import Form = FormUrlEncoded
  import opened PaginatedConnection

  /** The pairs the local `encodeCursor` appends: each key with `String(value)`. */
  function TextPairs(c: Cursor): (ps: seq<Form.Pair>)
    ensures |ps| == |c|
    ensures forall i :: 0 <= i < |c| ==> ps[i] == (c[i].0, ToText(c[i].1))
  {
    seq(|c|, i requires 0 <= i < |c| => (c[i].0, ToText(c[i].1)))
  }

  /** The token of a cursor's fields under the adapter's own encoder. */
  function EncodeFields(c: Cursor): string
  {
    CursorCodec.Seal(TextPairs(c))
  }

  /**
   * The local `encodeCursor({node, getCursor})`: a url-safe token carrying one
   * pair per field, in field order, each value as its text `String(value)`. Its
   * `decodeCursor` is the generic `CursorCodec.DecodeCursor`, line for line.
   */
  function EncodeCursor<N>(node: N, getCursor: N -> Cursor): (token: string)
    ensures forall i :: 0 <= i < |token| ==> Base64Url.IsUrlSafeChar(token[i])
    ensures var c := getCursor(node);
            && |CursorCodec.Open(token)| == |c|
            && forall i :: 0 <= i < |c| ==> CursorCodec.Open(token)[i] == (c[i].0, ToText(c[i].1))
  {
    CursorCodec.OpenSeal(TextPairs(getCursor(node)));
    EncodeFields(getCursor(node))
  }

  /** The page size the adapter settles on: the request clamped to one more than the safe limit. */
  function ResolvedFirst(safeLimit: int, pagination: Option<PaginationInput>): int
  {
    PaginationLimit(safeLimit + 1, Pagination(pagination).first)
  }

  /** The pagination handed to the generic orchestrator: same `after`, `first` raised by one. */
  function InnerPagination(pagination: Option<PaginationInput>, first: int): PaginationInput
  {
    PaginationInput(Pagination(pagination).after, Some(first + 1))
  }

  /** The arguments the adapter's data loader receives for page size `first`. */
  function LoaderArgsOf(safeLimit: int, pagination: Option<PaginationInput>, first: int): LoaderArgs
  {
    LoaderArgsFor(Some(InnerPagination(pagination, first)), safeLimit + 1, CursorCodec.DecodeCursor)
  }

  /**
   * Over-fetch by one for page size `first`: the orchestrator runs with the
   * ceiling `safeLimit + 1` and `first + 1`, `hasNextPage` is whether the loader
   * returned more than `first` edges, the edges are cut back with `slice(0, first)`
   * and `endCursor` is taken from what is kept.
   */
  function OverFetch<N>(pagination: Option<PaginationInput>, safeLimit: int, first: int,
                        dataLoader: LoaderArgs -> seq<Edge<N>>): (r: Connection<N>)
    ensures EndCursorIsLastEdge(r)
    ensures var loaded := dataLoader(LoaderArgsOf(safeLimit, pagination, first));
            && r.edges == SliceTo(loaded, first)
            && r.pageInfo.hasNextPage == (|loaded| > first)
            && r.countArgs == ResolveCursor(Pagination(pagination).after, CursorCodec.DecodeCursor)
  {
    var inner := PaginatedConnection.Paginate(
      Some(InnerPagination(pagination, first)), safeLimit + 1, CursorCodec.DecodeCursor,
      (a: LoaderArgs) => LoaderResult(dataLoader(a), |dataLoader(a)| > first));
    var edges := SliceTo(inner.edges, first);
    Connection(edges, PageInfo(EndCursor(edges), inner.pageInfo.hasNextPage), inner.countArgs)
  }

  /**
   * `mysqlPaginatedConnection(params)` as written; the data loader returns edges
   * only. The page size is at most `safeLimit + 1`; the edges are the first
   * page-size loaded ones, `hasNextPage` says whether more came back, `endCursor`
   * is the last kept edge's, and `totalCount` counts from the decoded `after`.
   */
  function Paginate<N>(pagination: Option<PaginationInput>, safeLimit: int,
                       dataLoader: LoaderArgs -> seq<Edge<N>>): (r: Connection<N>)
    ensures ResolvedFirst(safeLimit, pagination) <= safeLimit + 1
    ensures EndCursorIsLastEdge(r)
    ensures var first := ResolvedFirst(safeLimit, pagination);
            var loaded := dataLoader(LoaderArgsOf(safeLimit, pagination, first));
            && r.edges == SliceTo(loaded, first)
            && r.pageInfo.hasNextPage == (|loaded| > first)
            && r.countArgs == ResolveCursor(Pagination(pagination).after, CursorCodec.DecodeCursor)
  {
    OverFetch(pagination, safeLimit, ResolvedFirst(safeLimit, pagination), dataLoader)
  }

  /** The page size the adapter's tests expect: the request clamped to the safe limit itself. */
  function IntendedFirst(safeLimit: int, pagination: Option<PaginationInput>): int
  {
    PaginationLimit(safeLimit, Pagination(pagination).first)
  }

  /**
   * The adapter with the page size clamped to the safe limit before the extra
   * edge is added, and otherwise as `Paginate`.
   */
  function PaginateIntended<N>(pagination: Option<PaginationInput>, safeLimit: int,
                               dataLoader: LoaderArgs -> seq<Edge<N>>): (r: Connection<N>)
    ensures IntendedFirst(safeLimit, pagination) <= safeLimit
    ensures EndCursorIsLastEdge(r)
    ensures var first := IntendedFirst(safeLimit, pagination);
            var loaded := dataLoader(LoaderArgsOf(safeLimit, pagination, first));
            && r.edges == SliceTo(loaded, first)
            && r.pageInfo.hasNextPage == (|loaded| > first)
            && r.countArgs == ResolveCursor(Pagination(pagination).after, CursorCodec.DecodeCursor)
  {
    OverFetch(pagination, safeLimit, IntendedFirst(safeLimit, pagination), dataLoader)
  }

  // ---- lemmas ----

  /** Decoding a token of the adapter's encoder gives each key `String(value)`. */
  lemma DecodeEncode(c: Cursor)
    requires DistinctKeys(c)
    ensures forall i :: 0 <= i < |c| ==>
              (c[i].0 in CursorCodec.DecodeCursor(EncodeFields(c))
               && CursorCodec.DecodeCursor(EncodeFields(c))[c[i].0] == ToText(c[i].1))
    ensures forall k :: k in CursorCodec.DecodeCursor(EncodeFields(c)) ==> exists i :: 0 <= i < |c| && c[i].0 == k
  {
    var ps := TextPairs(c);
    var m := CursorCodec.FromEntries(ps);
    CursorCodec.OpenSeal(ps);
    forall i | 0 <= i < |c|
      ensures c[i].0 in m && m[c[i].0] == ToText(c[i].1)
    {
      assert forall j :: i < j < |ps| ==> ps[j].0 != ps[i].0;
      CursorCodec.LaterPairWins(ps, i);
    }
    forall k | k in m
      ensures exists i :: 0 <= i < |c| && c[i].0 == k
    {
      var i :| 0 <= i < |ps| && ps[i].0 == k;
      assert c[i].0 == k;
    }
  }

  /** The map of a string-valued cursor object. */
  function AsFields(c: Cursor): (m: Fields)
    requires DistinctKeys(c)
    requires forall i :: 0 <= i < |c| ==> c[i].1.Str?
  {
    map i | 0 <= i < |c| :: c[i].0 := c[i].1.s
  }

  /** A map with the keys of a string-valued cursor and their values is that cursor's map. */
  lemma AsFieldsUnique(c: Cursor, m: Fields)
    requires DistinctKeys(c)
    requires forall i :: 0 <= i < |c| ==> c[i].1.Str?
    requires forall i :: 0 <= i < |c| ==> c[i].0 in m && m[c[i].0] == c[i].1.s
    requires forall k :: k in m ==> exists i :: 0 <= i < |c| && c[i].0 == k
    ensures m == AsFields(c)
  {
    var f := AsFields(c);
    forall k | k in m
      ensures k in f && m[k] == f[k]
    {
      var i :| 0 <= i < |c| && c[i].0 == k;
      assert f[c[i].0] == c[i].1.s;
    }
    forall k | k in f
      ensures k in m
    {
      var i :| 0 <= i < |c| && c[i].0 == k;
      assert c[i].0 in m;
    }
  }

  /** For string-valued cursors the adapter's codec round-trips exactly. */
  lemma RoundTrip(c: Cursor)
    requires DistinctKeys(c)
    requires forall i :: 0 <= i < |c| ==> c[i].1.Str?
    ensures CursorCodec.DecodeCursor(EncodeFields(c)) == AsFields(c)
  {
    DecodeEncode(c);
    var m := CursorCodec.DecodeCursor(EncodeFields(c));
    assert forall i :: 0 <= i < |c| ==> ToText(c[i].1) == c[i].1.s;
    AsFieldsUnique(c, m);
  }

  /**
   * The page size: never above one more than the safe limit; a request in
   * `1..safeLimit` is kept and the loader is asked for one edge more.
   */
  lemma ResolvedFirstBounds(safeLimit: int, pagination: Option<PaginationInput>)
    ensures ResolvedFirst(safeLimit, pagination) <= safeLimit + 1
    ensures var n := Pagination(pagination).first;
            n.Some? && 0 < n.value <= safeLimit ==>
              ResolvedFirst(safeLimit, pagination) == n.value
              && LoaderArgsOf(safeLimit, pagination, ResolvedFirst(safeLimit, pagination)).first == n.value + 1
  {
  }

  /**
   * With no request (or one of 0, or one above the safe limit) the adapter settles
   * on `safeLimit + 1` edges, not `safeLimit`, and the loader is asked for
   * `safeLimit + 1`: so `hasNextPage` can only be true if the loader returns more
   * than it was asked for.
   */
  lemma PageSizeWithoutRequest<N>(pagination: Option<PaginationInput>, safeLimit: nat,
                                  dataLoader: LoaderArgs -> seq<Edge<N>>)
    requires var n := Pagination(pagination).first; n.None? || n == Some(0) || n.value > safeLimit
    ensures ResolvedFirst(safeLimit, pagination) == safeLimit + 1
    ensures LoaderArgsOf(safeLimit, pagination, ResolvedFirst(safeLimit, pagination)).first == safeLimit + 1
    ensures var loaded := dataLoader(LoaderArgsOf(safeLimit, pagination, ResolvedFirst(safeLimit, pagination)));
            var r := Paginate(pagination, safeLimit, dataLoader);
            && |r.edges| == (if |loaded| < safeLimit + 1 then |loaded| else safeLimit + 1)
            && r.pageInfo.hasNextPage == (|loaded| > safeLimit + 1)
  {
  }

  /**
   * Over-fetch by one, for a request `first` in `1..safeLimit`: the caller gets the
   * first `min(|loaded|, first)` loaded edges in order, `hasNextPage` says whether
   * the loader returned more than `first`, and `endCursor` is the last kept edge's
   * cursor, never the dropped extra one's.
   */
  lemma OverFetchByOne<N>(pagination: Option<PaginationInput>, safeLimit: int,
                          dataLoader: LoaderArgs -> seq<Edge<N>>, first: int)
    requires Pagination(pagination).first == Some(first)
    requires 0 < first <= safeLimit
    ensures var loaded := dataLoader(LoaderArgsOf(safeLimit, pagination, ResolvedFirst(safeLimit, pagination)));
            var r := Paginate(pagination, safeLimit, dataLoader);
            var kept := if |loaded| < first then |loaded| else first;
            && LoaderArgsOf(safeLimit, pagination, ResolvedFirst(safeLimit, pagination)).first == first + 1
            && r.edges == loaded[..kept]
            && r.pageInfo.hasNextPage == (|loaded| > first)
            && (kept > 0 ==> r.pageInfo.endCursor == Some(loaded[kept - 1].cursor))
            && (kept == 0 ==> r.pageInfo.endCursor.None?)
  {
  }

  /** A data loader over an in-memory list: the first `a.first` items as edges. */
  function ListLoader<N>(items: seq<N>, cursorOf: N -> string): LoaderArgs -> seq<Edge<N>>
  {
    (a: LoaderArgs) => ListEdges(items, a.first, cursorOf)
  }

  /**
   * As written, with no `first` and a list of exactly `safeLimit + 1` items, the
   * adapter returns all of them and reports no next page, where the corrected
   * adapter returns `safeLimit` of them and reports a next page.
   */
  lemma PageSizeDiscrepancy<N>(safeLimit: nat, items: seq<N>, cursorOf: N -> string)
    requires |items| == safeLimit + 1
    ensures var r := Paginate(None, safeLimit, ListLoader(items, cursorOf));
            |r.edges| == safeLimit + 1 && !r.pageInfo.hasNextPage
    ensures var r := PaginateIntended(None, safeLimit, ListLoader(items, cursorOf));
            |r.edges| == safeLimit && r.pageInfo.hasNextPage
  {
    PageSizeWithoutRequest(None, safeLimit, ListLoader(items, cursorOf));
    IntendedPageSize(None, safeLimit, items, cursorOf);
  }

  /**
   * The corrected adapter over a list, for an absent or non-negative request:
   * the page size is the request clamped into `0..safeLimit` (the safe limit
   * when absent or zero, so never 0 while the safe limit is positive), the edges are exactly the first
   * `min(|items|, size)` items with their cursors, and `hasNextPage` says whether
   * the list holds more than that.
   */
  lemma IntendedPageSize<N>(pagination: Option<PaginationInput>, safeLimit: int,
                            items: seq<N>, cursorOf: N -> string)
    requires safeLimit >= 0
    requires var n := Pagination(pagination).first; n.None? || n.value >= 0
    ensures var f := IntendedFirst(safeLimit, pagination);
            && 0 <= f <= safeLimit
            && (safeLimit > 0 ==> f > 0)
            && (Pagination(pagination).first.None? ==> f == safeLimit)
    ensures var f := IntendedFirst(safeLimit, pagination);
            var r := PaginateIntended(pagination, safeLimit, ListLoader(items, cursorOf));
            && r.edges == ListEdges(items, f, cursorOf)
            && r.pageInfo.hasNextPage == (|items| > f)
  {
    var f := IntendedFirst(safeLimit, pagination);
    var a := LoaderArgsOf(safeLimit, pagination, f);
    assert a.first == f + 1;
    var loaded := ListEdges(items, f + 1, cursorOf);
    assert ListLoader(items, cursorOf)(a) == loaded;
    var r := PaginateIntended(pagination, safeLimit, ListLoader(items, cursorOf));
    assert r.edges == SliceTo(loaded, f);
    assert SliceTo(loaded, f) == ListEdges(items, f, cursorOf);
  }
}
