/**
 * The generic orchestrator of `src/paginatedConnection.ts`: it resolves the page
 * size against a safe limit, decodes the `after` cursor when one is given, asks
 * the data loader for a page with the decoded fields and the page size, and
 * assembles the connection: the loader's edges and `hasNextPage`, the cursor of
 * the last edge as `endCursor`, and a deferred `totalCount`.
 *
 * Loaders and decoders are function parameters. `totalCount` is a closure in the
 * source; here the connection keeps the argument it would pass to the count
 * loader, and `TotalCount` applies a count loader to it.
 */
module PaginatedConnection {
  import opened Wrappers

  /** `PaginationInput`: both fields optional. */
  datatype PaginationInput = PaginationInput(after: Option<string>, first: Option<int>)

  /** A node with the token that resumes after it. */
  datatype Edge<N> = Edge(node: N, cursor: string)

  /** A decoded cursor: field name to text. */
  type Fields = map<string, string>

  /** What the data loader receives: the decoded cursor fields and the page size `first`. */
  datatype LoaderArgs = LoaderArgs(fields: Fields, first: int)

  /** What the data loader returns. */
  datatype LoaderResult<N> = LoaderResult(edges: seq<Edge<N>>, hasNextPage: bool)

  datatype PageInfo = PageInfo(endCursor: Option<string>, hasNextPage: bool)

  /** The connection; `countArgs` is what `totalCount()` passes to the count loader. */
  datatype Connection<N> = Connection(edges: seq<Edge<N>>, pageInfo: PageInfo, countArgs: Fields)

  /** The connection invariant: `endCursor` is the cursor of the last edge, absent when there are none. */
  predicate EndCursorIsLastEdge<N>(c: Connection<N>)
  {
    if |c.edges| == 0 then c.pageInfo.endCursor.None?
    else c.pageInfo.endCursor == Some(c.edges[|c.edges| - 1].cursor)
  }

  /** `edges[edges.length - 1]?.cursor`. */
  function EndCursor<N>(edges: seq<Edge<N>>): (r: Option<string>)
    ensures EndCursorIsLastEdge(Connection(edges, PageInfo(r, false), map[]))
  {
    match Last(edges)
    case Some(e) => Some(e.cursor)
    case None => None
  }

  /**
   * `getPaginationLimit(paginationSafeLimit, limit)`: a missing or zero request
   * gets the safe limit, a request above the safe limit is cut down to it, and any
   * other request, negative ones included, is kept.
   */
  function PaginationLimit(safeLimit: int, limit: Option<int>): (r: int)
    ensures r <= safeLimit
    ensures r == safeLimit || (limit.Some? && r == limit.value)
    ensures limit.None? || limit == Some(0) ==> r == safeLimit
    ensures limit.Some? && limit.value != 0 && limit.value <= safeLimit ==> r == limit.value
  {
    match limit
    case None => safeLimit
    case Some(n) => if n == 0 then safeLimit else if n > safeLimit then safeLimit else n
  }

  /** `props.pagination ?? {}`. */
  function Pagination(pagination: Option<PaginationInput>): PaginationInput
  {
    match pagination
    case Some(p) => p
    case None => PaginationInput(None, None)
  }

  /** The decoded cursor: the decoder is consulted only for a non-empty `after`. */
  function ResolveCursor(after: Option<string>, decode: string -> Fields): (r: Fields)
    ensures after.None? || after == Some("") ==> r == map[]
    ensures after.Some? && after.value != "" ==> r == decode(after.value)
  {
    match after
    case Some(token) => if token != "" then decode(token) else map[]
    case None => map[]
  }

  /**
   * `{...decodedCursor, encodeCursor, first: limit}`: the decoded fields, except
   * that `first` is the resolved limit whatever the cursor says, and a decoded
   * `encodeCursor` is overwritten by the encoder (which the model does not carry).
   */
  function LoaderArguments(decoded: Fields, limit: int): (a: LoaderArgs)
    ensures a.first == limit
    ensures "first" !in a.fields && "encodeCursor" !in a.fields
    ensures forall k :: k in decoded && k != "first" && k != "encodeCursor" ==> k in a.fields && a.fields[k] == decoded[k]
    ensures a.fields.Keys <= decoded.Keys
  {
    LoaderArgs(decoded - {"first", "encodeCursor"}, limit)
  }

  /** The arguments `paginatedConnection` passes to its data loader. */
  function LoaderArgsFor(pagination: Option<PaginationInput>, safeLimit: int, decode: string -> Fields): (a: LoaderArgs)
    ensures a.first <= safeLimit
  {
    var p := Pagination(pagination);
    LoaderArguments(ResolveCursor(p.after, decode), PaginationLimit(safeLimit, p.first))
  }

  /** `paginatedConnection(props)`. */
  function Paginate<N>(pagination: Option<PaginationInput>, safeLimit: int, decode: string -> Fields,
                       dataLoader: LoaderArgs -> LoaderResult<N>): (r: Connection<N>)
    ensures EndCursorIsLastEdge(r)
    ensures r.edges == dataLoader(LoaderArgsFor(pagination, safeLimit, decode)).edges
    ensures r.pageInfo.hasNextPage == dataLoader(LoaderArgsFor(pagination, safeLimit, decode)).hasNextPage
    ensures r.countArgs == ResolveCursor(Pagination(pagination).after, decode)
  {
    var p := Pagination(pagination);
    var decoded := ResolveCursor(p.after, decode);
    var page := dataLoader(LoaderArguments(decoded, PaginationLimit(safeLimit, p.first)));
    Connection(page.edges, PageInfo(EndCursor(page.edges), page.hasNextPage), decoded)
  }

  /** `totalCount()`: the count loader applied to the decoded cursor, only when called. */
  function TotalCount<N>(c: Connection<N>, countLoader: Fields -> int): int
  {
    countLoader(c.countArgs)
  }

  /** A loader over an in-memory list, as the tests write them: `items.slice(0, first)` as edges. */
  function ListEdges<N>(items: seq<N>, first: int, cursorOf: N -> string): (r: seq<Edge<N>>)
    ensures |r| == |SliceTo(items, first)|
    ensures forall i :: 0 <= i < |r| ==> r[i] == Edge(items[i], cursorOf(items[i]))
  {
    var kept := SliceTo(items, first);
    seq(|kept|, i requires 0 <= i < |kept| => Edge(kept[i], cursorOf(kept[i])))
  }

  // ---- lemmas ----

  /** Clamping twice is clamping once. */
  lemma PaginationLimitIdempotent(safeLimit: int, limit: Option<int>)
    ensures PaginationLimit(safeLimit, Some(PaginationLimit(safeLimit, limit))) == PaginationLimit(safeLimit, limit)
  {
  }

  /** A larger request never yields a smaller page, among positive requests. */
  lemma PaginationLimitMonotone(safeLimit: int, m: int, n: int)
    requires 0 < m <= n
    ensures PaginationLimit(safeLimit, Some(m)) <= PaginationLimit(safeLimit, Some(n))
  {
  }

  /** A missing `pagination` behaves as an empty one. */
  lemma NullPaginationIsEmpty<N>(safeLimit: int, decode: string -> Fields, dataLoader: LoaderArgs -> LoaderResult<N>)
    ensures Paginate(None, safeLimit, decode, dataLoader)
         == Paginate(Some(PaginationInput(None, None)), safeLimit, decode, dataLoader)
  {
  }

  /** Without a non-empty `after` the decoder is never consulted: any decoder gives the same connection. */
  lemma DecoderUnusedWithoutAfter<N>(pagination: Option<PaginationInput>, safeLimit: int,
                                     decode1: string -> Fields, decode2: string -> Fields,
                                     dataLoader: LoaderArgs -> LoaderResult<N>)
    requires Pagination(pagination).after.None? || Pagination(pagination).after == Some("")
    ensures Paginate(pagination, safeLimit, decode1, dataLoader) == Paginate(pagination, safeLimit, decode2, dataLoader)
  {
  }

  /** `totalCount()` counts from the same decoded cursor the loader paged from. */
  lemma TotalCountUsesDecodedCursor<N>(pagination: Option<PaginationInput>, safeLimit: int, decode: string -> Fields,
                                       dataLoader: LoaderArgs -> LoaderResult<N>, countLoader: Fields -> int)
    ensures var a := LoaderArgsFor(pagination, safeLimit, decode);
            var d := ResolveCursor(Pagination(pagination).after, decode);
            TotalCount(Paginate(pagination, safeLimit, decode, dataLoader), countLoader) == countLoader(d)
            && a.fields == d - {"first", "encodeCursor"}
  {
  }
}
