/**
 * The `/datasets` handler's query-parameter handling and the classification
 * of errors into HTTP statuses (api/datasets.go).
 */
module Datasets {
  import opened Wrappers
  import opened Strings
  import opened ApiErrors
  import Strconv
  import Filters

  const DefaultLimit: int := 50
  const DefaultOffset: int := 0

  /** The only body a 500 response ever carries. */
  const InternalError: string := "internal server error"

  /**
   * The phrase that makes an error a client error whatever its identity:
   * "the maximum offset has been reached, the offset cannot be more than",
   * written as its two clauses around its one comma.
   */
  const ExceedsDefaultMaximum: string := ReachedClause + "," + BoundClause

  /** What `http.Error` writes: a status code and a body. */
  datatype Response = Response(status: int, body: string)

  /**
   * setErrorCode: the not-found table first, then the bad-request table, then
   * the offset phrase; everything else is a 500 whose body hides the message.
   */
  function SetErrorCode(e: Error): (r: Response)
    ensures r.status == 404 <==> InNotFoundMap(e)
    ensures r.status == 400 <==>
      !InNotFoundMap(e) && (InBadRequestMap(e) || Contains(Message(e), ExceedsDefaultMaximum))
    ensures r.status == 500 <==>
      !InNotFoundMap(e) && !InBadRequestMap(e) && !Contains(Message(e), ExceedsDefaultMaximum)
    ensures r.status != 500 ==> r.body == Message(e)
    ensures r.status == 500 ==> r.body == InternalError
  {
    if InNotFoundMap(e) then Response(404, Message(e))
    else if InBadRequestMap(e) then Response(400, Message(e))
    else if Contains(Message(e), ExceedsDefaultMaximum) then Response(400, Message(e))
    else Response(500, InternalError)
  }

  /** A message shorter than the phrase cannot contain it. */
  lemma {:induction false} ShortLacksPhrase(m: string)
    requires |m| < |ExceedsDefaultMaximum|
    ensures !Contains(m, ExceedsDefaultMaximum)
  {
  }

  /**
   * The one package message longer than the phrase does not contain it either:
   * it is one character longer, and neither of the two characters where the
   * phrase's final 'n' would have to fall is an 'n'.
   */
  lemma {:induction false} MarshallingLacksPhrase()
    ensures !Contains(KindMessage(MarshallingQuery), ExceedsDefaultMaximum)
  {
    var m := KindMessage(MarshallingQuery);
    var p := ExceedsDefaultMaximum;
    assert |m| == 68 && |p| == 67;
    assert m[66] == 'i' && m[67] == 'c' && p[66] == 'n';
  }

  /** No package error's message carries the phrase. */
  lemma {:induction false} KindLacksPhrase(k: Kind)
    ensures !Contains(KindMessage(k), ExceedsDefaultMaximum)
  {
    match k
    case MarshallingQuery => MarshallingLacksPhrase();
    case BadSearchQuery => ShortLacksPhrase(KindMessage(k));
    case EmptySearchTerm => ShortLacksPhrase(KindMessage(k));
    case IndexNotFound => ShortLacksPhrase(KindMessage(k));
    case InternalServer => ShortLacksPhrase(KindMessage(k));
    case ParsingQueryParameters => ShortLacksPhrase(KindMessage(k));
    case TooManyDimensionFilters => ShortLacksPhrase(KindMessage(k));
    case TooManyTopicFilters => ShortLacksPhrase(KindMessage(k));
    case TopicNotFound => ShortLacksPhrase(KindMessage(k));
    case UnmarshallingJSON => ShortLacksPhrase(KindMessage(k));
    case UnexpectedStatusCode => ShortLacksPhrase(KindMessage(k));
  }

  /** The status of every package error: 404, the four of the bad-request table, 500 for the six others. */
  lemma {:induction false} SentinelStatus(k: Kind)
    ensures SetErrorCode(Sentinel(k)).status ==
      if k == TopicNotFound then 404 else if k in BadRequestMap then 400 else 500
    ensures SetErrorCode(Sentinel(k)).status == 500 ==> SetErrorCode(Sentinel(k)).body == InternalError
  {
    KindLacksPhrase(k);
  }

  /** ErrTopicNotFound, the failure of the taxonomy lookup, is a 404 naming the topic as missing. */
  lemma {:induction false} TopicNotFoundIs404()
    ensures SetErrorCode(Sentinel(TopicNotFound)) == Response(404, "Topic not found")
  {
  }

  /** A fresh error is a 400 exactly when its message carries the phrase, a 500 otherwise. */
  lemma {:induction false} FreshStatus(m: string)
    ensures SetErrorCode(Fresh(m)).status == if Contains(m, ExceedsDefaultMaximum) then 400 else 500
  {
  }

  /** Every character of a join is the separator's or one of the parts'. */
  lemma {:induction false} JoinChars(parts: seq<string>, sep: string, j: nat)
    requires j < |Join(parts, sep)|
    ensures Join(parts, sep)[j] in sep || exists k :: 0 <= k < |parts| && Join(parts, sep)[j] in parts[k]
  {
    if |parts| == 1 {
      assert Join(parts, sep)[j] in parts[0];
    } else {
      var head := parts[0] + sep;
      var s := Join(parts, sep);
      assert s == head + Join(parts[1..], sep);
      if j < |parts[0]| {
        assert s[j] == parts[0][j];
      } else if j < |head| {
        assert s[j] == sep[j - |parts[0]|];
      } else {
        JoinChars(parts[1..], sep, j - |head|);
        assert s[j] == Join(parts[1..], sep)[j - |head|];
        if s[j] !in sep {
          var k :| 0 <= k < |parts[1..]| && s[j] in parts[1..][k];
          assert s[j] in parts[k + 1];
        }
      }
    }
  }

  /**
   * The invalid-topics error is a 500 whenever no reported slug contains a
   * space: the phrase's last space would have to fall inside the joined slugs.
   */
  lemma {:induction false} InvalidTopicsIs500(list: seq<string>)
    requires forall k :: 0 <= k < |list| ==> ' ' !in list[k]
    ensures SetErrorCode(Filters.ErrorInvalidTopics(list)) == Response(500, InternalError)
  {
    var e := Filters.ErrorInvalidTopics(list);
    var m := Message(e);
    var p := ExceedsDefaultMaximum;
    var n := |Filters.InvalidTopicsPrefix|;
    if Contains(m, p) {
      var i := Index(m, p).value;
      assert m[i..i + |p|] == p;
      assert p[62] == ' ';
      assert m[i + 62] == ' ';
      var j := i + 62 - n;
      assert m[n..][j] == m[i + 62];
      JoinChars(list, ",", j);
    }
  }

  /** The phrase is two comma-free clauses around its one comma. */
  lemma {:induction false} PhraseClauses()
    ensures ExceedsDefaultMaximum == ReachedClause + "," + BoundClause
    ensures ',' !in ReachedClause && ',' !in BoundClause
  {
  }

  const ReachedClause: string := "the maximum offset has been reached"
  const BoundClause: string := " the offset cannot be more than"

  // Neither clause is a slug of the vocabulary, stated one part of it at a time.

  lemma {:induction false} ClausesNotInLevels12()
    ensures ReachedClause !in Filters.Level1Slugs && ReachedClause !in Filters.Level2Slugs
    ensures BoundClause !in Filters.Level1Slugs && BoundClause !in Filters.Level2Slugs
  {
  }

  lemma {:induction false} ClausesNotInAToH()
    ensures ReachedClause !in Filters.Level3SlugsAToH && BoundClause !in Filters.Level3SlugsAToH
  {
  }

  lemma {:induction false} ClausesNotInIToW()
    ensures ReachedClause !in Filters.Level3SlugsIToP && BoundClause !in Filters.Level3SlugsIToP
    ensures ReachedClause !in Filters.Level3SlugsRToW && BoundClause !in Filters.Level3SlugsRToW
  {
  }

  /**
   * The invalid-topics message echoes the request: a topics string equal to
   * the offset phrase splits at its comma into two unknown "slugs" whose join
   * is the phrase again, so that error would be classified 400, not 500.
   */
  lemma {:induction false} EchoedPhraseIs400(topics: string)
    requires topics == ExceedsDefaultMaximum
    ensures Filters.TopicFilters(Filters.ValidTopics, topics) == Err(Filters.ErrorInvalidTopics([ReachedClause, BoundClause]))
    ensures SetErrorCode(Filters.TopicFilters(Filters.ValidTopics, topics).error) ==
      Response(400, Filters.InvalidTopicsPrefix + ExceedsDefaultMaximum)
  {
    var list := [ReachedClause, BoundClause];
    PhraseClauses();
    Filters.SplitTwo(ReachedClause, BoundClause);
    ClausesNotInLevels12();
    ClausesNotInAToH();
    ClausesNotInIToW();
    Filters.VocabularyLevels(ReachedClause);
    Filters.VocabularyLevels(BoundClause);
    Filters.UnknownOfTwo(Filters.ValidTopics, list);
    Filters.AllUnknown(Filters.ValidTopics, topics, list);
    EchoStatus(list);
  }

  lemma {:induction false} EchoStatus(list: seq<string>)
    requires list == [ReachedClause, BoundClause]
    ensures SetErrorCode(Filters.ErrorInvalidTopics(list)) ==
      Response(400, Filters.InvalidTopicsPrefix + ExceedsDefaultMaximum)
  {
    var m := Message(Filters.ErrorInvalidTopics(list));
    assert list[1..] == [BoundClause];
    assert Join(list, ",") == ExceedsDefaultMaximum;
    PrefixThen(m, Filters.InvalidTopicsPrefix, ExceedsDefaultMaximum);
  }

  /**
   * A request parameter: the default when absent; otherwise the integer it
   * spells (an optional sign, then decimal digits) when that is within range,
   * and a failure for anything else.
   */
  function Param(requested: string, default: int): (r: Option<int>)
    ensures requested == "" ==> r == Some(default)
    ensures requested != "" ==>
      forall n :: r == Some(n) <==> Strconv.Denotes(requested, n) && Strconv.MinInt64 <= n <= Strconv.MaxInt64
  {
    if requested == "" then Some(default)
    else
      Strconv.AtoiExactly(requested);
      Strconv.Atoi(requested)
  }

  /** Every `int` the client writes in decimal is read back as itself. */
  lemma {:induction false} ParamRoundTrip(n: int, default: int)
    requires Strconv.MinInt64 <= n <= Strconv.MaxInt64
    ensures Param(Strconv.Itoa(n), default) == Some(n)
  {
    Strconv.AtoiItoa(n);
  }

  /** How a request to `/datasets` ends before the search: a response, or a search with these bounds. */
  datatype Outcome = Respond(response: Response) | Search(limit: int, offset: int)

  /**
   * getDatasets up to the search call. `validate` stands for the pagination
   * check of `PageVariables.Validate`, whose code is not part of this model.
   */
  method GetDatasets(requestedLimit: string, requestedOffset: string, validate: (int, int) -> Option<Error>)
    returns (o: Outcome)
    ensures Param(requestedLimit, DefaultLimit).None? ==>
      o == Respond(SetErrorCode(Sentinel(ParsingQueryParameters)))
    ensures Param(requestedLimit, DefaultLimit).Some? && Param(requestedOffset, DefaultOffset).None? ==>
      o == Respond(SetErrorCode(Sentinel(ParsingQueryParameters)))
    ensures Param(requestedLimit, DefaultLimit).Some? && Param(requestedOffset, DefaultOffset).Some? ==>
      var limit := Param(requestedLimit, DefaultLimit).value;
      var offset := Param(requestedOffset, DefaultOffset).value;
      o == if validate(limit, offset).Some? then Respond(SetErrorCode(validate(limit, offset).value))
           else Search(limit, offset)
  {
    var limit := DefaultLimit;
    if requestedLimit != "" {
      var parsed := Strconv.Atoi(requestedLimit);
      if parsed.None? {
        return Respond(SetErrorCode(Sentinel(ParsingQueryParameters)));
      }
      limit := parsed.value;
    }

    var offset := DefaultOffset;
    if requestedOffset != "" {
      var parsed := Strconv.Atoi(requestedOffset);
      if parsed.None? {
        return Respond(SetErrorCode(Sentinel(ParsingQueryParameters)));
      }
      offset := parsed.value;
    }

    var err := validate(limit, offset);
    if err.Some? {
      return Respond(SetErrorCode(err.value));
    }
    return Search(limit, offset);
  }

  /** A parameter that is not an integer is a 400 carrying the parsing message, whatever validation would say. */
  lemma {:induction false} ParseFailureIs400(requested: string, default: int)
    requires Param(requested, default).None?
    ensures requested != "" && Strconv.Atoi(requested).None?
    ensures SetErrorCode(Sentinel(ParsingQueryParameters)) ==
      Response(400, "failed to parse query parameters, values must be an integer")
  {
  }
}
