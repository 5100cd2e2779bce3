/**
 * Validation of the `topics` and `dimensions` filter parameters
 * (models/filters.go): a comma-separated list is split, counted, checked
 * against the static topic vocabulary and grouped into exact-match filters.
 */
module Filters {
  import opened Wrappers
  import opened Strings
  import opened ApiErrors
  import Strconv

  const MaximumDimensionFilters: nat := 10
  const MaximumTopicFilters: nat := 10
  const DimensionName := "dimensions.name"
  const Topic1 := "topic1"
  const Topic2 := "topic2"
  const Topic3 := "topic3"
  const InvalidTopicsPrefix := "invalid list of topics to filter by: "

  /** The search backend's filter clause: exact-match terms, or a query nested in a sub-document. */
  datatype Filter = Filter(terms: map<string, seq<string>>, nested: Option<Nested>)
  datatype Nested = Nested(path: string, query: seq<NestedQuery>)
  datatype NestedQuery = NestedQuery(terms: map<string, seq<string>>)

  /** The slugs the vocabulary places at level 1. */
  const Level1Slugs: set<string> := {
    "economy",
    "employmentandlabourmarket",
    "peoplepopulationandcommunity"
  }

  /** The slugs the vocabulary places at level 2. */
  const Level2Slugs: set<string> := {
    "birthsdeathsandmarriages",
    "crimeandjustice",
    "culturalidentity",
    "economicoutputandproductivity",
    "educationandchildcare",
    "elections",
    "environmentalaccounts",
    "governmentpublicsectorandtaxes",
    "grossdomesticproductgdp",
    "grossvalueaddedgva",
    "healthandsocialcare",
    "householdcharacteristics",
    "housing",
    "inflationandpriceindices",
    "investmentspensionsandtrusts",
    "leisureandtourism",
    "nationalaccounts",
    "peopleinwork",
    "peoplenotinwork",
    "personalandhouseholdfinances",
    "populationandmigration",
    "regionalaccounts",
    "wellbeing"
  }

  /** The slugs the vocabulary places at level 3, from "a" to "h". */
  const Level3SlugsAToH: set<string> := {
    "adoption",
    "ageing",
    "balanceofpayments",
    "causesofdeath",
    "childhealth",
    "conceptionandfertilityrates",
    "conditionsanddiseases",
    "deaths",
    "debt",
    "disability",
    "divorce",
    "drugusealcoholandsmoking",
    "earningsandworkinghours",
    "economicinactivity",
    "electoralregistration",
    "employmentandemployeetypes",
    "ethnicity",
    "expenditure",
    "families",
    "generalelections",
    "grossdisposablehouseholdincome",
    "healthandlifeexpectancies",
    "healthandwellbeing",
    "healthcaresystem",
    "healthinequalities",
    "homeinternetandsocialmediausage"
  }

  /** The slugs the vocabulary places at level 3, from "i" to "p". */
  const Level3SlugsIToP: set<string> := {
    "incomeandwealth",
    "internationalmigration",
    "labourproductivity",
    "language",
    "lifeexpectancies",
    "livebirths",
    "localgovernmentelections",
    "localgovernmentfinance",
    "marriagecohabitationandcivilpartnerships",
    "maternities",
    "mentalhealth",
    "migrationwithintheuk",
    "outofworkbenefits",
    "output",
    "pensionssavingsandinvestments",
    "populationestimates",
    "populationprojections",
    "productivitymeasures",
    "publicsectorfinance",
    "publicsectorpersonnel",
    "publicservicesproductivity",
    "publicspending"
  }

  /** The slugs the vocabulary places at level 3, from "r" to "w". */
  const Level3SlugsRToW: set<string> := {
    "redundancies",
    "religion",
    "researchanddevelopmentexpenditure",
    "satelliteaccounts",
    "sexuality",
    "socialcare",
    "stillbirths",
    "supplyandusetables",
    "taxesandrevenue",
    "uksectoraccounts",
    "unemployment",
    "workplacedisputesandworkingconditions",
    "workplacepensions"
  }

  const Level3Slugs: set<string> := Level3SlugsAToH + Level3SlugsIToP + Level3SlugsRToW

  /**
   * The controlled vocabulary `validTopics`: topic slug to its level in the
   * taxonomy, the same table as the source's map literal, listed here level by level.
   */
  const ValidTopics: map<string, int> :=
    map slug | slug in Level1Slugs + Level2Slugs + Level3Slugs ::
      if slug in Level1Slugs then 1 else if slug in Level2Slugs then 2 else 3

  /**
   * `validTopics[topic]` for a vocabulary `vocab`: a slug the vocabulary does
   * not list reads as level 0, Go's zero value.
   */
  function Level(vocab: map<string, int>, slug: string): int {
    if slug in vocab then vocab[slug] else 0
  }

  /** A vocabulary whose every slug is at level 1, 2 or 3, as `validTopics` is. */
  predicate LevelsInRange(vocab: map<string, int>) {
    forall t :: t in vocab ==> 1 <= vocab[t] <= 3
  }

  /** The source's vocabulary places every slug it lists at level 1, 2 or 3. */
  lemma {:induction false} VocabularyLevels(slug: string)
    ensures slug in ValidTopics ==> 1 <= Level(ValidTopics, slug) <= 3
    ensures slug !in ValidTopics ==> Level(ValidTopics, slug) == 0
    ensures LevelsInRange(ValidTopics)
  {
  }

  /** The slugs of `slugs` that are not in the vocabulary, in input order. */
  function Unknown(vocab: map<string, int>, slugs: seq<string>): seq<string>
    decreases |slugs|
  {
    if slugs == [] then []
    else Unknown(vocab, slugs[..|slugs| - 1]) + (if Level(vocab, slugs[|slugs| - 1]) < 1 then [slugs[|slugs| - 1]] else [])
  }

  /** The slugs of `slugs` at vocabulary level `n`, in input order, duplicates kept. */
  function AtLevel(vocab: map<string, int>, slugs: seq<string>, n: int): seq<string>
    decreases |slugs|
  {
    if slugs == [] then []
    else AtLevel(vocab, slugs[..|slugs| - 1], n) + (if Level(vocab, slugs[|slugs| - 1]) == n then [slugs[|slugs| - 1]] else [])
  }

  /** The error listing the unknown slugs, joined by commas. */
  function ErrorInvalidTopics(topicList: seq<string>): (e: Error)
    ensures e.Fresh? && HasPrefix(Message(e), InvalidTopicsPrefix)
    ensures Message(e)[|InvalidTopicsPrefix|..] == Join(topicList, ",")
    ensures |topicList| >= 1 && (forall k :: 0 <= k < |topicList| ==> !Contains(topicList[k], ",")) ==>
      Split(Message(e)[|InvalidTopicsPrefix|..], ",") == topicList
  {
    var m := InvalidTopicsPrefix + Join(topicList, ",");
    assert m[|InvalidTopicsPrefix|..] == Join(topicList, ",");
    if |topicList| >= 1 && (forall k :: 0 <= k < |topicList| ==> !Contains(topicList[k], ",")) then
      SplitJoin(topicList, ",");
      Fresh(m)
    else
      Fresh(m)
  }

  /** The exact-match filter on one topic level, or nothing for an empty group. */
  function LevelFilter(field: string, slugs: seq<string>): seq<Filter> {
    if slugs == [] then [] else [Filter(map[field := slugs], None)]
  }

  /** What ValidateTopics returns, stated over the whole list at once. */
  function TopicFilters(vocab: map<string, int>, topics: string): Result<seq<Filter>, Error> {
    if topics == "" then Ok([])
    else
      var topicList := Split(topics, ",");
      if |topicList| > MaximumTopicFilters then Err(Sentinel(TooManyTopicFilters))
      else if Unknown(vocab, topicList) != [] then Err(ErrorInvalidTopics(Unknown(vocab, topicList)))
      else Ok(LevelFilter(Topic1, AtLevel(vocab, topicList, 1))
              + LevelFilter(Topic2, AtLevel(vocab, topicList, 2))
              + LevelFilter(Topic3, AtLevel(vocab, topicList, 3)))
  }

  /** ValidateDimensions: one nested filter on the dimension names, at most ten of them. */
  function ValidateDimensions(dimensions: string): (r: Result<Option<Filter>, Error>)
    ensures dimensions == "" ==> r == Ok(None)
    ensures r.Err? <==> dimensions != "" && |Split(dimensions, ",")| > MaximumDimensionFilters
    ensures r.Err? ==> r.error == Sentinel(TooManyDimensionFilters)
    ensures r.Ok? && r.value.Some? ==>
      var f := r.value.value;
      && f.terms == map[]
      && f.nested.Some? && f.nested.value.path == "dimensions" && |f.nested.value.query| == 1
      && f.nested.value.query[0].terms.Keys == {DimensionName}
      && var names := f.nested.value.query[0].terms[DimensionName];
         && 1 <= |names| <= MaximumDimensionFilters
         && Join(names, ",") == dimensions
         && forall k :: 0 <= k < |names| ==> !Contains(names[k], ",")
    ensures r.Ok? ==> (r.value.None? <==> dimensions == "")
  {
    if dimensions == "" then Ok(None)
    else
      var dimensionList := Split(dimensions, ",");
      if |dimensionList| > MaximumDimensionFilters then Err(Sentinel(TooManyDimensionFilters))
      else
        JoinSplit(dimensions, ",");
        SplitPiecesFree(dimensions, ",");
        Ok(Some(Filter(map[], Some(Nested("dimensions", [NestedQuery(map[DimensionName := dimensionList])])))))
  }

  /** ValidateTopics, as the loop in the source computes it. */
  method ValidateTopics(vocab: map<string, int>, topics: string) returns (r: Result<seq<Filter>, Error>)
    ensures r == TopicFilters(vocab, topics)
  {
    if topics == "" {
      return Ok([]);
    }
    var topicList := Split(topics, ",");
    if |topicList| > MaximumTopicFilters {
      return Err(Sentinel(TooManyTopicFilters));
    }
    var invalidTopics, topic1List, topic2List, topic3List := [], [], [], [];
    var i := 0;
    while i < |topicList|
      invariant 0 <= i <= |topicList|
      invariant invalidTopics == Unknown(vocab, topicList[..i])
      invariant topic1List == AtLevel(vocab, topicList[..i], 1)
      invariant topic2List == AtLevel(vocab, topicList[..i], 2)
      invariant topic3List == AtLevel(vocab, topicList[..i], 3)
    {
      var topic := topicList[i];
      assert topicList[..i + 1][..i] == topicList[..i];
      if Level(vocab, topic) < 1 {
        invalidTopics := invalidTopics + [topic];
      } else if Level(vocab, topic) == 1 {
        topic1List := topic1List + [topic];
      } else if Level(vocab, topic) == 2 {
        topic2List := topic2List + [topic];
      } else if Level(vocab, topic) == 3 {
        topic3List := topic3List + [topic];
      }
      i := i + 1;
    }
    assert topicList[..i] == topicList;
    assert TopicFilters(vocab, topics) ==
      if invalidTopics != [] then Err(ErrorInvalidTopics(invalidTopics))
      else Ok(LevelFilter(Topic1, topic1List) + LevelFilter(Topic2, topic2List) + LevelFilter(Topic3, topic3List));
    if |invalidTopics| > 0 {
      return Err(ErrorInvalidTopics(invalidTopics));
    }
    var filters := [];
    if |topic1List| > 0 {
      filters := filters + [Filter(map[Topic1 := topic1List], None)];
    }
    assert filters == LevelFilter(Topic1, topic1List);
    if |topic2List| > 0 {
      filters := filters + [Filter(map[Topic2 := topic2List], None)];
    }
    assert filters == LevelFilter(Topic1, topic1List) + LevelFilter(Topic2, topic2List);
    if |topic3List| > 0 {
      filters := filters + [Filter(map[Topic3 := topic3List], None)];
    }
    assert filters == LevelFilter(Topic1, topic1List) + LevelFilter(Topic2, topic2List) + LevelFilter(Topic3, topic3List);
    return Ok(filters);
  }

  /** The level a topic filter is on: 1, 2 or 3 by its field name, 0 for any other filter. */
  function FieldLevel(f: Filter): int {
    if Topic1 in f.terms then 1 else if Topic2 in f.terms then 2 else if Topic3 in f.terms then 3 else 0
  }

  /** The slugs a topic filter matches on. */
  function FilterSlugs(f: Filter): seq<string> {
    var n := FieldLevel(f);
    if n == 1 then f.terms[Topic1] else if n == 2 then f.terms[Topic2] else if n == 3 then f.terms[Topic3] else []
  }

  /** Each filter read back as its level and its slugs. */
  function Groups(fs: seq<Filter>): seq<(int, seq<string>)> {
    if fs == [] then [] else [(FieldLevel(fs[0]), FilterSlugs(fs[0]))] + Groups(fs[1..])
  }

  /** All slugs of a list of topic filters, filter after filter. */
  function AllSlugs(fs: seq<Filter>): seq<string> {
    if fs == [] then [] else FilterSlugs(fs[0]) + AllSlugs(fs[1..])
  }

  /** The groups that hold at least one slug. */
  function NonEmptyGroups(gs: seq<(int, seq<string>)>): seq<(int, seq<string>)> {
    if gs == [] then [] else (if gs[0].1 == [] then [] else [gs[0]]) + NonEmptyGroups(gs[1..])
  }

  /** Unknown keeps exactly the slugs that are not in the vocabulary, each as often as it occurs. */
  lemma {:induction false} UnknownExactly(vocab: map<string, int>, slugs: seq<string>)
    ensures forall t :: multiset(Unknown(vocab, slugs))[t] == if Level(vocab, t) < 1 then multiset(slugs)[t] else 0
    decreases |slugs|
  {
    if slugs != [] {
      var init, last := slugs[..|slugs| - 1], slugs[|slugs| - 1];
      UnknownExactly(vocab, init);
      assert slugs == init + [last];
    }
  }

  /** AtLevel keeps exactly the slugs at level `n`, each as often as it occurs. */
  lemma {:induction false} AtLevelExactly(vocab: map<string, int>, slugs: seq<string>, n: int)
    ensures forall t :: multiset(AtLevel(vocab, slugs, n))[t] == if Level(vocab, t) == n then multiset(slugs)[t] else 0
    decreases |slugs|
  {
    if slugs != [] {
      var init, last := slugs[..|slugs| - 1], slugs[|slugs| - 1];
      AtLevelExactly(vocab, init, n);
      assert slugs == init + [last];
    }
  }

  /**
   * Every slug lands in exactly one of the four lists the loop of ValidateTopics
   * builds: the else-if chain never drops a slug, because every vocabulary level is 1, 2 or 3.
   */
  lemma {:induction false} Partition(vocab: map<string, int>, slugs: seq<string>)
    requires LevelsInRange(vocab)
    ensures multiset(Unknown(vocab, slugs)) + multiset(AtLevel(vocab, slugs, 1)) + multiset(AtLevel(vocab, slugs, 2))
            + multiset(AtLevel(vocab, slugs, 3)) == multiset(slugs)
  {
    var whole := multiset(Unknown(vocab, slugs)) + multiset(AtLevel(vocab, slugs, 1))
                 + multiset(AtLevel(vocab, slugs, 2)) + multiset(AtLevel(vocab, slugs, 3));
    forall t ensures whole[t] == multiset(slugs)[t] {
      PartitionAt(vocab, slugs, t);
    }
    assert whole == multiset(slugs);
  }

  /** Each slug occurs in the four lists together as often as in the request. */
  lemma {:induction false} PartitionAt(vocab: map<string, int>, slugs: seq<string>, t: string)
    requires LevelsInRange(vocab)
    ensures multiset(Unknown(vocab, slugs))[t] + multiset(AtLevel(vocab, slugs, 1))[t]
            + multiset(AtLevel(vocab, slugs, 2))[t] + multiset(AtLevel(vocab, slugs, 3))[t] == multiset(slugs)[t]
  {
    UnknownExactly(vocab, slugs);
    AtLevelExactly(vocab, slugs, 1);
    AtLevelExactly(vocab, slugs, 2);
    AtLevelExactly(vocab, slugs, 3);
    if t in vocab {
      assert 1 <= vocab[t] <= 3;
    }
  }

  /**
   * The requests ValidateTopics refuses: too many entries (the count is tested
   * first), or any unknown slug, which gives the fresh invalid-topics error.
   */
  lemma {:induction false} TopicFiltersErrors(vocab: map<string, int>, topics: string)
    ensures var list := Split(topics, ",");
      TopicFilters(vocab, topics).Err? <==>
        topics != "" && (|list| > MaximumTopicFilters || exists k :: 0 <= k < |list| && Level(vocab, list[k]) < 1)
    ensures topics != "" && |Split(topics, ",")| > MaximumTopicFilters ==>
      TopicFilters(vocab, topics) == Err(Sentinel(TooManyTopicFilters))
    ensures var list := Split(topics, ",");
      topics != "" && |list| <= MaximumTopicFilters && (exists k :: 0 <= k < |list| && Level(vocab, list[k]) < 1) ==>
        TopicFilters(vocab, topics) == Err(ErrorInvalidTopics(Unknown(vocab, list))) &&
        TopicFilters(vocab, topics).error.Fresh?
  {
    var list := Split(topics, ",");
    UnknownExactly(vocab, list);
    if exists k :: 0 <= k < |list| && Level(vocab, list[k]) < 1 {
      var k :| 0 <= k < |list| && Level(vocab, list[k]) < 1;
      assert list[k] in multiset(list);
      assert list[k] in multiset(Unknown(vocab, list));
    }
    if Unknown(vocab, list) != [] {
      assert Unknown(vocab, list)[0] in multiset(Unknown(vocab, list));
      assert Unknown(vocab, list)[0] in multiset(list);
    }
  }

  /**
   * An InvalidTopics error names exactly the unknown slugs, in input order, and
   * the list can be read back from its message; a known slug is never named.
   */
  lemma {:induction false} InvalidTopicsReport(vocab: map<string, int>, topics: string)
    requires TopicFilters(vocab, topics).Err? && TopicFilters(vocab, topics).error.Fresh?
    ensures var list := Split(topics, ",");
      var named := Split(Message(TopicFilters(vocab, topics).error)[|InvalidTopicsPrefix|..], ",");
      && |list| <= MaximumTopicFilters
      && named == Unknown(vocab, list) && named != []
      && forall t :: multiset(named)[t] == if Level(vocab, t) < 1 then multiset(list)[t] else 0
  {
    var list := Split(topics, ",");
    SplitPiecesFree(topics, ",");
    UnknownExactly(vocab, list);
    var u := Unknown(vocab, list);
    forall k | 0 <= k < |u| ensures !Contains(u[k], ",") {
      assert u[k] in multiset(u);
      assert u[k] in multiset(list);
      var j :| 0 <= j < |list| && list[j] == u[k];
    }
  }

  /**
   * A successful validation groups the slugs by level: one exact-match filter
   * per non-empty level, in the order topic1, topic2, topic3, each holding that
   * level's slugs in input order with duplicates kept, and all of them
   * together holding every slug of the request.
   */
  lemma {:induction false} TopicFiltersGrouping(vocab: map<string, int>, topics: string)
    requires LevelsInRange(vocab)
    requires topics != "" && TopicFilters(vocab, topics).Ok?
    ensures var fs, list := TopicFilters(vocab, topics).value, Split(topics, ",");
      && (forall k :: 0 <= k < |fs| ==> fs[k].nested.None? && |fs[k].terms| == 1)
      && Groups(fs) == NonEmptyGroups([(1, AtLevel(vocab, list, 1)), (2, AtLevel(vocab, list, 2)), (3, AtLevel(vocab, list, 3))])
      && multiset(AllSlugs(fs)) == multiset(list)
  {
    var list := Split(topics, ",");
    var a, b, c := AtLevel(vocab, list, 1), AtLevel(vocab, list, 2), AtLevel(vocab, list, 3);
    assert TopicFilters(vocab, topics).value == LevelFilter(Topic1, a) + LevelFilter(Topic2, b) + LevelFilter(Topic3, c);
    LevelFiltersShape(a, b, c);
    Partition(vocab, list);
    assert multiset(Unknown(vocab, list)) == multiset{};
  }

  /** The shape of the three level filters, whatever slugs they hold. */
  lemma {:induction false} LevelFiltersShape(a: seq<string>, b: seq<string>, c: seq<string>)
    ensures var fs := LevelFilter(Topic1, a) + LevelFilter(Topic2, b) + LevelFilter(Topic3, c);
      && (forall k :: 0 <= k < |fs| ==> fs[k].nested.None? && |fs[k].terms| == 1)
      && Groups(fs) == NonEmptyGroups([(1, a), (2, b), (3, c)])
      && AllSlugs(fs) == a + b + c
  {
    var f1, f2, f3 := LevelFilter(Topic1, a), LevelFilter(Topic2, b), LevelFilter(Topic3, c);
    LevelFilterShape(Topic1, 1, a);
    LevelFilterShape(Topic2, 2, b);
    LevelFilterShape(Topic3, 3, c);
    Append(f1, f2);
    Append(f1 + f2, f3);
    NonEmptyAppend([(1, a)], [(2, b)]);
    NonEmptyAppend([(1, a), (2, b)], [(3, c)]);
    assert [(1, a)] + [(2, b)] == [(1, a), (2, b)];
    assert [(1, a), (2, b)] + [(3, c)] == [(1, a), (2, b), (3, c)];
    var fs := f1 + f2 + f3;
    forall k | 0 <= k < |fs| ensures fs[k].nested.None? && |fs[k].terms| == 1 {
      if k < |f1| {
        assert fs[k] == f1[k];
      } else if k < |f1| + |f2| {
        assert fs[k] == f2[k - |f1|];
      } else {
        assert fs[k] == f3[k - |f1| - |f2|];
      }
    }
  }

  lemma {:induction false} LevelFilterShape(field: string, n: int, slugs: seq<string>)
    requires (n == 1 && field == Topic1) || (n == 2 && field == Topic2) || (n == 3 && field == Topic3)
    ensures var fs := LevelFilter(field, slugs);
      && (forall k :: 0 <= k < |fs| ==> fs[k].nested.None? && |fs[k].terms| == 1)
      && Groups(fs) == NonEmptyGroups([(n, slugs)])
      && AllSlugs(fs) == slugs
  {
    if slugs != [] {
      var f := Filter(map[field := slugs], None);
      assert FieldLevel(f) == n;
      assert FilterSlugs(f) == slugs;
      assert Groups([f]) == [(n, slugs)] + Groups([]);
    }
  }

  lemma {:induction false} Append(fs: seq<Filter>, gs: seq<Filter>)
    ensures AllSlugs(fs + gs) == AllSlugs(fs) + AllSlugs(gs)
    ensures Groups(fs + gs) == Groups(fs) + Groups(gs)
  {
    AppendSlugs(fs, gs);
    AppendGroups(fs, gs);
  }

  lemma {:induction false} AppendSlugs(fs: seq<Filter>, gs: seq<Filter>)
    ensures AllSlugs(fs + gs) == AllSlugs(fs) + AllSlugs(gs)
  {
    if fs == [] {
      assert fs + gs == gs;
    } else {
      var head := FilterSlugs(fs[0]);
      assert (fs + gs)[0] == fs[0];
      assert (fs + gs)[1..] == fs[1..] + gs;
      AppendSlugs(fs[1..], gs);
      assert head + (AllSlugs(fs[1..]) + AllSlugs(gs)) == (head + AllSlugs(fs[1..])) + AllSlugs(gs);
    }
  }

  lemma {:induction false} AppendGroups(fs: seq<Filter>, gs: seq<Filter>)
    ensures Groups(fs + gs) == Groups(fs) + Groups(gs)
  {
    if fs == [] {
      assert fs + gs == gs;
    } else {
      var head := [(FieldLevel(fs[0]), FilterSlugs(fs[0]))];
      assert (fs + gs)[0] == fs[0];
      assert (fs + gs)[1..] == fs[1..] + gs;
      AppendGroups(fs[1..], gs);
      assert head + (Groups(fs[1..]) + Groups(gs)) == (head + Groups(fs[1..])) + Groups(gs);
    }
  }

  lemma {:induction false} NonEmptyAppend(gs: seq<(int, seq<string>)>, hs: seq<(int, seq<string>)>)
    ensures NonEmptyGroups(gs + hs) == NonEmptyGroups(gs) + NonEmptyGroups(hs)
  {
    if gs == [] {
      assert gs + hs == hs;
    } else {
      assert (gs + hs)[0] == gs[0];
      assert (gs + hs)[1..] == gs[1..] + hs;
      NonEmptyAppend(gs[1..], hs);
    }
  }

  /** Two comma-free slugs joined by a comma split back into exactly those two. */
  lemma {:induction false} SplitTwo(a: string, b: string)
    requires ',' !in a && ',' !in b
    ensures Split(a + "," + b, ",") == [a, b]
  {
    var parts := [a, b];
    FreeOfChar(a, ",");
    FreeOfChar(b, ",");
    assert parts[1..] == [b];
    SplitJoin(parts, ",");
  }

  /** Two slugs, both unknown, are both reported, in order. */
  lemma {:induction false} UnknownOfTwo(vocab: map<string, int>, list: seq<string>)
    requires |list| == 2 && Level(vocab, list[0]) == 0 && Level(vocab, list[1]) == 0
    ensures Unknown(vocab, list) == list
  {
    var l1 := list[..1];
    assert l1[..0] == [] && l1[0] == list[0];
    assert Unknown(vocab, l1) == [list[0]];
  }

  lemma {:induction false} AllUnknown(vocab: map<string, int>, topics: string, list: seq<string>)
    requires topics != "" && Split(topics, ",") == list
    requires |list| <= MaximumTopicFilters && Unknown(vocab, list) == list && list != []
    ensures TopicFilters(vocab, topics) == Err(ErrorInvalidTopics(list))
  {
  }

  /** Three comma-free slugs joined by commas split back into exactly those three. */
  lemma {:induction false} SplitThree(a: string, b: string, c: string)
    requires ',' !in a && ',' !in b && ',' !in c
    ensures Split(a + "," + b + "," + c, ",") == [a, b, c]
  {
    var parts := [a, b, c];
    FreeOfChar(a, ",");
    FreeOfChar(b, ",");
    FreeOfChar(c, ",");
    assert parts[1..] == [b, c] && parts[1..][1..] == [c];
    assert Join(parts[1..], ",") == b + "," + c;
    assert a + "," + (b + "," + c) == a + "," + b + "," + c;
    SplitJoin(parts, ",");
  }

  lemma {:induction false} ExampleSplit(topics: string)
    requires topics == "economy" + "," + "ageing" + "," + "doesnotexist"
    ensures Split(topics, ",") == ["economy", "ageing", "doesnotexist"]
  {
    SplitThree("economy", "ageing", "doesnotexist");
  }

  lemma {:induction false} ThreeWithOneUnknown(vocab: map<string, int>, topics: string, list: seq<string>)
    requires topics != "" && Split(topics, ",") == list
    requires |list| == 3 && Unknown(vocab, list) == [list[2]]
    ensures TopicFilters(vocab, topics) == Err(ErrorInvalidTopics([list[2]]))
  {
  }

  /** The levels of the slugs in the example request: level 1, level 3 and unknown. */
  lemma {:induction false} ExampleLevels()
    ensures Level(ValidTopics, "economy") == 1 && Level(ValidTopics, "ageing") == 3 && Level(ValidTopics, "doesnotexist") == 0
  {
    LevelE();
    LevelA();
    LevelD();
  }

  // The three example slugs, one vocabulary part at a time.

  lemma {:induction false} LevelE()
    ensures Level(ValidTopics, "economy") == 1
  {
  }

  lemma {:induction false} LevelA()
    ensures Level(ValidTopics, "ageing") == 3
  {
    NotInA12();
    InA3();
  }

  lemma {:induction false} NotInA12()
    ensures "ageing" !in Level1Slugs && "ageing" !in Level2Slugs
  {
  }

  lemma {:induction false} InA3()
    ensures "ageing" in Level3SlugsAToH
  {
  }

  lemma {:induction false} LevelD()
    ensures Level(ValidTopics, "doesnotexist") == 0
  {
    NotInD1();
    NotInD2();
    NotInD3();
  }

  lemma {:induction false} NotInD1()
    ensures "doesnotexist" !in Level1Slugs && "doesnotexist" !in Level2Slugs
  {
  }

  lemma {:induction false} NotInD2()
    ensures "doesnotexist" !in Level3SlugsAToH
  {
  }

  lemma {:induction false} NotInD3()
    ensures "doesnotexist" !in Level3SlugsIToP && "doesnotexist" !in Level3SlugsRToW
  {
  }

  /** Of three slugs at levels 1, 3 and 0, only the third is unknown. */
  lemma {:induction false} UnknownOfThree(vocab: map<string, int>, list: seq<string>)
    requires |list| == 3 && Level(vocab, list[0]) == 1 && Level(vocab, list[1]) == 3 && Level(vocab, list[2]) == 0
    ensures Unknown(vocab, list) == [list[2]]
  {
    var l2 := list[..2];
    var l1 := list[..1];
    assert l2[..1] == l1 && l1[..0] == [];
    assert l1[0] == list[0] && l2[1] == list[1];
    assert Unknown(vocab, l1) == [];
    assert Unknown(vocab, l2) == [];
  }

  /** A single unknown slug is echoed verbatim after the prefix. */
  lemma {:induction false} OneSlugMessage(slug: string)
    ensures Message(ErrorInvalidTopics([slug])) == InvalidTopicsPrefix + slug
  {
    var m := Message(ErrorInvalidTopics([slug]));
    assert m == m[..|InvalidTopicsPrefix|] + m[|InvalidTopicsPrefix|..];
  }

  /** "economy" is level 1 and "ageing" level 3, so only "doesnotexist" is reported. */
  lemma {:induction false} UnknownSlugReportedAlone(topics: string)
    requires topics == "economy" + "," + "ageing" + "," + "doesnotexist"
    ensures TopicFilters(ValidTopics, topics) == Err(ErrorInvalidTopics(["doesnotexist"]))
    ensures Message(TopicFilters(ValidTopics, topics).error) == InvalidTopicsPrefix + "doesnotexist"
  {
    var list := ["economy", "ageing", "doesnotexist"];
    OneSlugMessage(list[2]);
    ExampleSplit(topics);
    ExampleLevels();
    UnknownOfThree(ValidTopics, list);
    ThreeWithOneUnknown(ValidTopics, topics, list);
  }

  /** The two too-many messages state the same maximum of ten that the limits enforce. */
  lemma {:induction false} LimitMessages()
    ensures KindMessage(TooManyTopicFilters) ==
      "Too many topic filters, limited to a maximum of " + Strconv.Itoa(MaximumTopicFilters)
    ensures KindMessage(TooManyDimensionFilters) ==
      "Too many dimension filters, limited to a maximum of " + Strconv.Itoa(MaximumDimensionFilters)
  {
  }
}
