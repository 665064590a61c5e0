/**
 * The document-store adapter of `src/paginatedConnectionMongoDb.ts`: the generic
 * orchestrator with a codec fixed to one field, `after`. Encoding writes the
 * single pair `after=<value>` (no JSON quoting); decoding keeps only the first
 * `after` value of the payload, and only when it is non-empty.
 */
module MongoDbAdapter {
  import opened Wrappers
  import CursorCodec
  import Base64Url
  import Form = FormUrlEncoded
  import opened PaginatedConnection

  /** `encodeCursor({node, getAfterValue})`: a url-safe token carrying the single pair `after=<value>`. */
  function EncodeCursor<N>(node: N, getAfterValue: N -> string): (token: string)
    ensures forall i :: 0 <= i < |token| ==> Base64Url.IsUrlSafeChar(token[i])
    ensures CursorCodec.Open(token) == [("after", getAfterValue(node))]
  {
    CursorCodec.OpenSeal([("after", getAfterValue(node))]);
    CursorCodec.Seal([("after", getAfterValue(node))])
  }

  /** `decodeCursor(cursor)`: `{after}` when the payload's first `after` is non-empty, else `{}`. */
  function DecodeCursor(token: string): (r: Fields)
    ensures r == map[] || (r.Keys == {"after"} && r["after"] != "")
    ensures "after" in r <==> exists v :: Form.Get(CursorCodec.Open(token), "after") == Some(v) && v != ""
    ensures "after" in r ==> Form.Get(CursorCodec.Open(token), "after") == Some(r["after"])
  {
    match Form.Get(CursorCodec.Open(token), "after")
    case Some(v) => if v != "" then map["after" := v] else map[]
    case None => map[]
  }

  /** `mongoDbPaginatedConnection(params)`. */
  function Paginate<N>(pagination: Option<PaginationInput>, safeLimit: int,
                       dataLoader: LoaderArgs -> LoaderResult<N>): (r: Connection<N>)
    ensures EndCursorIsLastEdge(r)
    ensures var a := LoaderArgsFor(pagination, safeLimit, DecodeCursor);
            && a.first <= safeLimit
            && a.fields.Keys <= {"after"}
            && r.edges == dataLoader(a).edges
            && r.pageInfo.hasNextPage == dataLoader(a).hasNextPage
    ensures r.countArgs == ResolveCursor(Pagination(pagination).after, DecodeCursor)
    ensures r.countArgs == map[] || r.countArgs.Keys == {"after"}
  {
    PaginatedConnection.Paginate(pagination, safeLimit, DecodeCursor, dataLoader)
  }

  // ---- lemmas ----

  /** The adapter's token decodes to `{after}` when the value is non-empty, and to `{}` when it is empty. */
  lemma RoundTrip<N>(node: N, getAfterValue: N -> string)
    ensures getAfterValue(node) != "" ==> DecodeCursor(EncodeCursor(node, getAfterValue)) == map["after" := getAfterValue(node)]
    ensures getAfterValue(node) == "" ==> DecodeCursor(EncodeCursor(node, getAfterValue)) == map[]
  {
    CursorCodec.OpenSeal([("after", getAfterValue(node))]);
  }

  /** Every payload key but the first `after` is discarded: payloads that agree on it decode alike. */
  lemma OnlyAfterMatters(ps: seq<Form.Pair>, qs: seq<Form.Pair>)
    requires Form.Get(ps, "after") == Form.Get(qs, "after")
    ensures DecodeCursor(CursorCodec.Seal(ps)) == DecodeCursor(CursorCodec.Seal(qs))
  {
    CursorCodec.OpenSeal(ps);
    CursorCodec.OpenSeal(qs);
  }

  /** The generic decoder reads the adapter's token as the single field `after`, empty or not. */
  lemma GenericDecoderReadsToken<N>(node: N, getAfterValue: N -> string)
    ensures CursorCodec.DecodeCursor(EncodeCursor(node, getAfterValue)) == map["after" := getAfterValue(node)]
  {
    CursorCodec.OpenSeal([("after", getAfterValue(node))]);
  }
}
