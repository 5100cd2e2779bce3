/**
 * The error values of the API (apierrors/errors.go) and the two lookup tables
 * that decide which of them are "not found" and which are "bad request".
 */
module ApiErrors {

  /** The package-level error values, one constructor per variable. */
  datatype Kind =
    | BadSearchQuery
    | EmptySearchTerm
    | IndexNotFound
    | InternalServer
    | MarshallingQuery
    | ParsingQueryParameters
    | TooManyDimensionFilters
    | TooManyTopicFilters
    | TopicNotFound
    | UnmarshallingJSON
    | UnexpectedStatusCode

  /**
   * A Go `error` value. Go compares errors by identity, so a value made by
   * `errors.New` anywhere else is `Fresh`, whatever its message says.
   */
  datatype Error = Sentinel(kind: Kind) | Fresh(message: string)

  function KindMessage(k: Kind): string {
    match k
    case BadSearchQuery => "bad query sent to elasticsearch index"
    case EmptySearchTerm => "empty search term"
    case IndexNotFound => "search index not found"
    case InternalServer => "internal server error"
    case MarshallingQuery => "failed to marshal query to bytes for request body to send to elastic"
    case ParsingQueryParameters => "failed to parse query parameters, values must be an integer"
    case TooManyDimensionFilters => "Too many dimension filters, limited to a maximum of 10"
    case TooManyTopicFilters => "Too many topic filters, limited to a maximum of 10"
    case TopicNotFound => "Topic not found"
    case UnmarshallingJSON => "failed to parse json body"
    case UnexpectedStatusCode => "unexpected status code from elastic api"
  }

  /** err.Error() */
  function Message(e: Error): string {
    match e
    case Sentinel(k) => KindMessage(k)
    case Fresh(m) => m
  }

  /** The keys of NotFoundMap. */
  const NotFoundMap: set<Kind> := {TopicNotFound}

  /** The keys of BadRequestMap. */
  const BadRequestMap: set<Kind> :=
    {EmptySearchTerm, ParsingQueryParameters, TooManyDimensionFilters, TooManyTopicFilters}

  /** `NotFoundMap[err]`: true only for the very value listed, never for a fresh error. */
  predicate InNotFoundMap(e: Error)
    ensures InNotFoundMap(e) <==> e == Sentinel(TopicNotFound)
  {
    e.Sentinel? && e.kind in NotFoundMap
  }

  /** `BadRequestMap[err]`. */
  predicate InBadRequestMap(e: Error)
    ensures InBadRequestMap(e) <==>
      e in {Sentinel(EmptySearchTerm), Sentinel(ParsingQueryParameters),
            Sentinel(TooManyDimensionFilters), Sentinel(TooManyTopicFilters)}
  {
    e.Sentinel? && e.kind in BadRequestMap
  }

  /** No error is in both tables. */
  lemma {:induction false} TablesDisjoint(e: Error)
    ensures !(InNotFoundMap(e) && InBadRequestMap(e))
  {
  }

  /** Exactly six of the package's errors are in neither table. */
  lemma {:induction false} Unclassified(k: Kind)
    ensures !InNotFoundMap(Sentinel(k)) && !InBadRequestMap(Sentinel(k)) <==>
      k in {BadSearchQuery, IndexNotFound, InternalServer, MarshallingQuery,
            UnmarshallingJSON, UnexpectedStatusCode}
  {
  }

  /** Fresh errors are in neither table, whatever their message. */
  lemma {:induction false} FreshUnclassified(m: string)
    ensures !InNotFoundMap(Fresh(m)) && !InBadRequestMap(Fresh(m))
  {
  }
}
