# dp-census-dataset-search-api, modelled in Dafny

The ONS census dataset search API answers four kinds of question:

- a search for datasets, paged by `limit` and `offset`;
- an optional filter by topic, at one of three taxonomy levels;
- an optional filter by dimension name;
- a request for one topic of the taxonomy, with its parent and children.

Two offline scripts prepare its data:

- `retrieve-cmd-datasets` turns the CMD dataset documents into a CSV export.
- `upload-datasets` reads a CSV whose columns are alias, description, ons-link, title and topic. It attaches each dataset's topic ancestry, taken from the taxonomy, and builds one search document per row. The export's own seven-column file is not such a CSV: `check` refuses its header at "dimension-names".

This project models the logic of those pieces and proves what the code promises.

| file | module | what it models |
|---|---|---|
| `wrappers.dfy` | `Wrappers` | `Option` and `Result` |
| `strings.dfy` | `Strings` | the parts of Go's `strings` package the code uses: `Index`, `Contains`, `HasPrefix`, `Split`, `SplitAfter`, `Join`, `TrimSuffix`, `TrimRight` with a one-character cutset |
| `strings.dfy` | `Strconv` | `strconv.Atoi`/`Itoa` on 64-bit ints |
| `apierrors.dfy` | `ApiErrors` | the eleven error values and the `NotFoundMap` / `BadRequestMap` tables |
| `filters.dfy` | `Filters` | `ValidateDimensions`, `ValidateTopics` (a loop method proved equal to a pure reference `TopicFilters`), `ErrorInvalidTopics` and the level vocabulary |
| `datasets.dfy` | `Datasets` | `setErrorCode` and the limit/offset handling of `getDatasets` |
| `taxonomy.dfy` | `Taxonomy` | the `getTopic` loop and `checkChildTopics` (methods), proved equal to a first-match search over the tree's parent/child edges in pre-order |
| `upload_datasets.dfy` | `UploadDatasets` | `check`, the three-level taxonomy inversion into `topicLevels`, and the row→document mapping |
| `retrieve_cmd_datasets.dfy` | `RetrieveCmdDatasets` | href→link/edition parsing, the QMI topic, the dimension join, the CSV row, and the export loop over all documents |

Errors are `Sentinel(kind)` (one of the package-level `errors.New` values) or `Fresh(message)` (an error built on the spot). Go compares errors by identity, so only a sentinel can be a key of `NotFoundMap` or `BadRequestMap`.

## Model

| member | source | states |
|---|---|---|
| ApiErrors.InNotFoundMap | apierrors/errors.go:19-21 | an error is in `NotFoundMap` exactly when it is the `ErrTopicNotFound` value |
| ApiErrors.InBadRequestMap | apierrors/errors.go:23-28 | an error is in `BadRequestMap` exactly when it is one of the four sentinels `ErrEmptySearchTerm`, `ErrParsingQueryParameters`, `ErrTooManyDimensionFilters`, `ErrTooManyTopicFilters` |
| ApiErrors.TablesDisjoint | apierrors/errors.go:19-28 | no error is in both tables |
| ApiErrors.Unclassified | apierrors/errors.go:7-28 | a sentinel is in neither table exactly when it is one of the six others (bad query, index not found, internal server, marshalling, unmarshalling, unexpected status) |
| ApiErrors.FreshUnclassified | apierrors/errors.go:19-28 | an error built on the spot is in neither table, whatever its message |
| Datasets.SetErrorCode | api/datasets.go:113-125 | status is 404 iff the error is in `NotFoundMap`; 400 iff not 404 and in `BadRequestMap` or its message contains the offset phrase; 500 otherwise; the body is the message except at 500, where it is "internal server error" |
| Datasets.SentinelStatus | api/datasets.go:113-125 | each sentinel's status follows its table (404, 400, else 500), because no built-in message contains the offset phrase |
| Datasets.KindLacksPhrase | apierrors/errors.go:7-17 | none of the eleven messages contains the offset phrase |
| Datasets.MarshallingLacksPhrase | apierrors/errors.go:11 | the one message longer than the offset phrase does not contain it |
| Datasets.ShortLacksPhrase | api/datasets.go:20 | a message shorter than the offset phrase cannot contain it |
| Datasets.TopicNotFoundIs404 | api/datasets.go:116-117 | `ErrTopicNotFound` gives 404 with body "Topic not found" |
| Datasets.FreshStatus | api/datasets.go:120-123 | an error built on the spot is 400 exactly when its message contains the offset phrase, and 500 otherwise |
| Datasets.InvalidTopicsIs500 | models/filters.go:19-23 | an invalid-topics error whose slugs have no space gives 500 with the generic body |
| Datasets.EchoedPhraseIs400 | models/filters.go:56-77 | the topic filter equal to the offset phrase splits into two unknown slugs, and its error is classified 400 with the phrase echoed as the body |
| Datasets.EchoStatus | api/datasets.go:120-121 | the invalid-topics error naming the phrase's two comma-separated clauses gives 400 |
| Datasets.PhraseClauses | api/datasets.go:20 | the offset phrase is two comma-free clauses joined by one comma |
| Datasets.Param | api/datasets.go:42-60 | an absent parameter takes its default; a present one reads as `n` exactly when it is an optional sign and at least one decimal digit spelling `n`, with `n` in the int64 range, and fails otherwise |
| Datasets.ParamRoundTrip | api/datasets.go:44 | any 64-bit integer written in decimal is read back as itself |
| Datasets.ParseFailureIs400 | api/datasets.go:44-49 | a parse failure happens only on a non-empty, non-integer parameter, and `ErrParsingQueryParameters` gives 400 with its message |
| Datasets.GetDatasets | api/datasets.go:42-72 | a bad limit, then a bad offset, answers `setErrorCode(ErrParsingQueryParameters)` before validation; otherwise a validation error is answered through `setErrorCode`; otherwise the search runs with the parsed limit and offset |
| Strconv.Atoi | api/datasets.go:44 | a result is in the int64 range and its input starts with a digit or a sign |
| Strconv.AtoiExactly | api/datasets.go:44 | `Atoi(s)` is `n` exactly when `s` is an optional sign (none, `+` or `-`) and at least one digit spelling `n`, and `n` is in the int64 range; every other string is refused |
| Strconv.AtoiPlus | api/datasets.go:44 | a plus sign before digits reads as their value |
| Strconv.AtoiOutOfRange | api/datasets.go:44 | digits whose value is beyond the int64 range are refused, with or without a sign |
| Strconv.AtoiMalformed | api/datasets.go:44 | the empty string, a bare sign, and a non-digit at the start or after the sign are refused |
| Strconv.AtoiItoa | api/datasets.go:44 | `Atoi(Itoa(n)) == n` for every 64-bit `n` |
| Strconv.AtoiDigits | api/datasets.go:44 | a string of decimal digits reads as its value |
| Strconv.AtoiMinus | api/datasets.go:44 | a minus sign before digits reads as the value negated |
| Strings.SplitJoin | models/filters.go:32 | splitting at a one-character separator gives back the parts joined with it, when no part contains it |
| Strings.JoinSplit | models/filters.go:32 | joining the pieces of a split gives back the string |
| Strings.SplitAfterIsSplit | scripts/retrieve-cmd-datasets/main.go:88-95 | each `SplitAfter` piece is the `Split` piece with its separator, except the last |
| Strings.SplitAfterPieces | scripts/retrieve-cmd-datasets/main.go:88-95 | the first `SplitAfter` piece runs through the first separator; when there is one, there is a second piece, running through the next separator |
| Filters.VocabularyLevels | models/filters.go:101-189 | every slug of the vocabulary has level 1, 2 or 3; a missing slug reads as 0 |
| Filters.ErrorInvalidTopics | models/filters.go:19-23 | the error is fresh, its message is the fixed prefix and then the slugs joined by commas, and comma-free slugs split back out of it |
| Filters.ValidateDimensions | models/filters.go:27-48 | an empty string gives no filter and no error; more than 10 comma-separated names gives `ErrTooManyDimensionFilters`; otherwise one nested filter on path "dimensions" whose "dimensions.name" terms are the split names verbatim and in order |
| Filters.ValidateTopics | models/filters.go:51-99 | the loop-and-append method computes the reference topic filters `TopicFilters` |
| Filters.TopicFiltersErrors | models/filters.go:52-77 | validation fails exactly when (non-empty and) there are more than 10 entries, or some entry is unknown; more than 10 entries gives `ErrTooManyTopicFilters` whatever the slugs; at most 10 with an unknown one gives the fresh `ErrorInvalidTopics` of the unknown slugs |
| Filters.InvalidTopicsReport | models/filters.go:63-77 | the invalid-topics error lists exactly the unknown slugs, in input order, and no valid slug |
| Filters.TopicFiltersGrouping | models/filters.go:79-98 | on success the filters are single-term exact matches on topic1, topic2 and topic3, in that order, with empty groups left out, each holding its level's slugs in input order |
| Filters.UnknownExactly | models/filters.go:63-65 | each slug occurs among the unknown ones as often as in the input when its level is below 1, and otherwise not at all |
| Filters.AtLevelExactly | models/filters.go:66-72 | each slug occurs in a level's group as often as in the input when it has that level, and otherwise not at all |
| Filters.Partition | models/filters.go:63-73 | the unknown slugs and the three groups together are the input as a multiset: every slug lands in exactly one of them, duplicates kept |
| Filters.PartitionAt | models/filters.go:63-73 | pointwise form of the partition for one slug |
| Filters.LevelFiltersShape | models/filters.go:79-98 | the concatenated level filters are single-term, un-nested and grouped by level in order |
| Filters.LevelFilterShape | models/filters.go:80-97 | one group's filter is absent when the group is empty, and otherwise one exact match on that level's field holding the group |
| Filters.AllUnknown | models/filters.go:75-77 | when every slug is unknown, the error lists them all |
| Filters.ThreeWithOneUnknown | models/filters.go:75-77 | with three slugs of which only the last is unknown, the error names only that slug |
| Filters.ExampleLevels | models/filters.go:103-189 | "economy" is level 1, "ageing" level 3, "doesnotexist" unknown |
| Filters.UnknownSlugReportedAlone | models/filters.go:56-77 | "economy,ageing,doesnotexist" fails with the message "invalid list of topics to filter by: doesnotexist" |
| Filters.OneSlugMessage | models/filters.go:19-23 | one slug's error message is the prefix followed by that slug |
| Filters.LimitMessages | apierrors/errors.go:13-14 | both too-many-filters messages name the maximum of 10 that the filters enforce |
| Taxonomy.Slugs | api/taxonomy.go:68-71 | the slugs of a list of topics, one per topic and in order |
| Taxonomy.CollectChildSlugs | api/taxonomy.go:116-119 | the loop appending `FormattedTitle`s yields the children's slugs in order (empty for a leaf) |
| Taxonomy.Find | api/taxonomy.go:112 | first-match search over edges: none iff no edge's node has the slug, and a found edge is in the list with that slug |
| Taxonomy.FindIsFirst | api/taxonomy.go:125-133 | the found edge is the first one whose node has the slug |
| Taxonomy.CheckChildTopics | api/taxonomy.go:110-138 | the recursive loop returns a result iff it reports `hasValidTopic`, and its result is the pre-order first match among the strict descendants |
| Taxonomy.GetTopic | api/taxonomy.go:62-93 | the top-level loop returns the first match in the whole taxonomy, or the `setErrorCode` response of `ErrTopicNotFound` when there is none |
| Taxonomy.EdgesExactly | api/taxonomy.go:110-138 | the search visits exactly the (parent, child) pairs of the tree |
| Taxonomy.LookupCorrect | api/taxonomy.go:110-138 | lookup fails iff no node at any depth below the root has the slug; a result is the title, parent slug and children's slugs of a node with that slug |
| Taxonomy.LookupReportsRequest | api/taxonomy.go:73-77 | a result's `topic` is the requested slug, and its title and children come from the node that was found |
| Taxonomy.NodeBeforeDescendants | api/taxonomy.go:112-127 | a child with the slug wins over its own descendants; its result has that child's parent as `ParentTopic` |
| Taxonomy.DescendantsBeforeSiblings | api/taxonomy.go:129-133 | a match below child i wins over every later sibling |
| Taxonomy.SkipSiblings | api/taxonomy.go:110-135 | children that neither match nor hold a match are skipped |
| Taxonomy.TopLevelHasNoParent | api/taxonomy.go:64-80 | a top-level match has an empty parent, the node's title, the requested slug and the children's slugs |
| Taxonomy.MissingTopicIs404 | api/taxonomy.go:88-92 | a slug on no node gives no result, and the response is 404 "Topic not found" |
| UploadDatasets.FirstInvalid | scripts/upload-datasets/main.go:244-247 | the index of the first header not among the five valid ones, or none iff all are valid |
| UploadDatasets.LastIndex | scripts/upload-datasets/main.go:250 | the last column holding a header |
| UploadDatasets.Check | scripts/upload-datasets/main.go:230-267 | an empty row gives "empty header row"; else the first unknown header gives "invalid header: " and that header; else absent headers give "missing header in row: " and every absent header, in some order, each followed by a space; else each header's last column |
| UploadDatasets.CheckedKeys | scripts/upload-datasets/main.go:243-251 | an accepted header row is indexed by exactly the five valid headers |
| UploadDatasets.CheckedIndex | scripts/upload-datasets/main.go:243-251 | in an accepted header row each valid header maps to its last column |
| UploadDatasets.SpacedNames | scripts/upload-datasets/main.go:258 | the missing-headers message names each missing header followed by a space |
| UploadDatasets.HeaderIndexSnoc | scripts/upload-datasets/main.go:250 | a later column of the same header overwrites the earlier index |
| UploadDatasets.InvertTaxonomy | scripts/upload-datasets/main.go:103-122 | the three nested loops write the table that the traversal's entries produce, in order, later writes winning |
| UploadDatasets.EntriesShape | scripts/upload-datasets/main.go:103-122 | an entry is written exactly for a top-level topic (levels: itself), a child (parent, itself) or a grandchild (grandparent, parent, itself); nothing deeper |
| UploadDatasets.Entries2Shape | scripts/upload-datasets/main.go:108-121 | the entries below one top-level topic are exactly its children's and grandchildren's |
| UploadDatasets.Entries3Shape | scripts/upload-datasets/main.go:114-120 | the entries below one child are exactly its own children's, each with three levels |
| UploadDatasets.EntryNamesItself | scripts/upload-datasets/main.go:103-122 | every entry is keyed by its deepest non-empty level, or by "" when the slug it writes is itself empty |
| UploadDatasets.InvertedTable | scripts/upload-datasets/main.go:103-122 | a slug is in the table iff some entry names it, and then it holds the last such entry |
| UploadDatasets.PutLast | scripts/upload-datasets/main.go:104-115 | an entry that no later entry overwrites is what the table holds |
| UploadDatasets.PutKeys | scripts/upload-datasets/main.go:104-115 | the table's keys are the earlier keys plus every written slug |
| UploadDatasets.RowToDataset | scripts/upload-datasets/main.go:187-204 | alias, description, link and title come from their columns; the three topic levels come from the table when the topic column is non-empty, and are empty otherwise or when the topic is unknown |
| UploadDatasets.ExportHeaderRefused | scripts/upload-datasets/main.go:244-247 | the header row the export script writes (scripts/retrieve-cmd-datasets/main.go:76) fails `check` at its sixth column, "dimension-names" |
| UploadDatasets.CheckedRow | scripts/upload-datasets/main.go:187-204 | after `check` accepts the header row, each field comes from the last column with that header; the topic levels are the table's entry for the last "topic" column's slug, or empty when that slug is empty or missing |
| RetrieveCmdDatasets.VersionLink | scripts/retrieve-cmd-datasets/main.go:87-95 | the URL is the site, "/datasets" and the href from after its first "datasets" through the next "versions"; the edition is the text after the first "editions/" there, with "/versions" trimmed |
| RetrieveCmdDatasets.CanonicalLink | scripts/retrieve-cmd-datasets/main.go:87-95 | an href `<host>datasets/<id>/editions/<edition>/versions<tail>` gives `https://www.ons.gov.uk/datasets/<id>/editions/<edition>/versions` and edition `<edition>`, when the host has no "datasets", the path and tail have no further "datasets", `/<id>/editions/<edition>` has no "versions", and neither `/<id>/` nor `<edition>/versions` has "editions/" |
| RetrieveCmdDatasets.ExampleLink | scripts/retrieve-cmd-datasets/main.go:87-95 | `.../datasets/cpih01/editions/time-series/versions/6` gives edition "time-series" |
| RetrieveCmdDatasets.LinkUrlNonEmpty | scripts/retrieve-cmd-datasets/main.go:91 | a parsed link is never the empty URL the loop uses as "skip" |
| RetrieveCmdDatasets.QmiTopic | scripts/retrieve-cmd-datasets/main.go:118-136 | no QMI, an empty href or a non-ONS href gives ""; an ONS href gives the segment before "methodologies" without its slash |
| RetrieveCmdDatasets.TopicOfSegment | scripts/retrieve-cmd-datasets/main.go:129-134 | the path has at least two `/`-pieces |
| RetrieveCmdDatasets.TopicBeforeLast | scripts/retrieve-cmd-datasets/main.go:129-134 | for slash-free segments joined by `/`, the topic is the second-to-last segment |
| RetrieveCmdDatasets.OnsQmiTopic | scripts/retrieve-cmd-datasets/main.go:118-136 | `https://www.ons.gov.uk/<a>/.../<t>/methodologies<rest>` gives topic `<t>` |
| RetrieveCmdDatasets.ExampleQmi | scripts/retrieve-cmd-datasets/main.go:118-136 | `.../economy/inflationandpriceindices/methodologies/cpihqmi` gives "inflationandpriceindices" |
| RetrieveCmdDatasets.Names | scripts/retrieve-cmd-datasets/main.go:149-161 | one name per dimension, in order |
| RetrieveCmdDatasets.Labels | scripts/retrieve-cmd-datasets/main.go:150-153 | one label per dimension, in order: its label, or its name when the label is empty |
| RetrieveCmdDatasets.JoinDimensions | scripts/retrieve-cmd-datasets/main.go:148-162 | the loop builds the names and the labels joined by `:` in input order, with no leading or trailing separator |
| RetrieveCmdDatasets.DimensionsRoundTrip | scripts/retrieve-cmd-datasets/main.go:148-162 | no dimensions give two empty strings; n give n−1 separators, and colon-free names and labels split back out exactly |
| RetrieveCmdDatasets.JoinSeparators | scripts/retrieve-cmd-datasets/main.go:159-160 | n separator-free parts joined with one character contain it n−1 times |
| RetrieveCmdDatasets.CsvRow | scripts/retrieve-cmd-datasets/main.go:164 | the row is the seven fields joined by commas, then a newline |
| RetrieveCmdDatasets.RowFields | scripts/retrieve-cmd-datasets/main.go:164 | a comma-free row splits back into its seven fields (title, description, topic, names and labels quoted; id and url bare), one per header column |
| RetrieveCmdDatasets.HeaderNamesColumns | scripts/retrieve-cmd-datasets/main.go:76 | the header line is the seven column names joined by commas, then a newline |
| RetrieveCmdDatasets.StepOutcomes | scripts/retrieve-cmd-datasets/main.go:79-167 | a dataset is skipped exactly when it has no link or its link does not answer, and ends the run exactly when its version number or version document cannot be read |
| RetrieveCmdDatasets.NoLinkNoRow | scripts/retrieve-cmd-datasets/main.go:83-86 | a document lacking current, links, latest_version or an href yields no row |
| RetrieveCmdDatasets.RowOfDataset | scripts/retrieve-cmd-datasets/main.go:79-166 | a written row is the dataset's title, id, description, QMI topic, link URL, and joined dimension names and labels |
| RetrieveCmdDatasets.ResolveLink | scripts/retrieve-cmd-datasets/main.go:80-116 | the nested checks give the empty URL exactly when the link is missing or does not answer, and otherwise the parsed URL and edition |
| RetrieveCmdDatasets.ExportDataset | scripts/retrieve-cmd-datasets/main.go:80-166 | one loop pass is the dataset's step: skip, exit or its row |
| RetrieveCmdDatasets.ExportLinked | scripts/retrieve-cmd-datasets/main.go:118-166 | after the link check: exit when the version number or the version document cannot be read, the row otherwise |
| RetrieveCmdDatasets.ExportAll | scripts/retrieve-cmd-datasets/main.go:76-167 | the file holds the header line and then the rows of the steps in dataset order, up to the first exit |
| RetrieveCmdDatasets.FoldAppend | scripts/retrieve-cmd-datasets/main.go:79-167 | the rows of two runs of datasets are concatenated in order, and nothing is written after an exit |
| RetrieveCmdDatasets.FoldExits | scripts/retrieve-cmd-datasets/main.go:142-146 | the run ends early exactly when some dataset's step is an exit |
| RetrieveCmdDatasets.FoldRows | scripts/retrieve-cmd-datasets/main.go:164-166 | without an exit, the written rows are exactly the rows of the datasets that produce one, in order |
| RetrieveCmdDatasets.StepsAt | scripts/retrieve-cmd-datasets/main.go:79 | the k-th step is the k-th dataset's |
| RetrieveCmdDatasets.StepsAppend | scripts/retrieve-cmd-datasets/main.go:79 | the steps of a concatenation of datasets are the steps of each part |

## Left out

- The search itself: the Elasticsearch query (a TODO passing a nil query), the request to the index, and the normalisation of its response. `GetDatasets` ends at the point where the search would run.
- `PageVariables.Validate`: its code is not part of this model. `GetDatasets` takes it as a parameter `validate` that may return an error.
- HTTP plumbing: routing, headers, CORS, the OPTIONS answer of `getTopic`, JSON marshalling of results, `w.Write` errors, and the trailing newline `http.Error` adds to a body. A `Response` is a status and a body.
- `getTaxonomy`, the dimensions handler, startup, configuration, elasticsearch wiring, signals and logging: plumbing with no decision logic.
- Mongo access, `http.Get`, the file writes and the CSV reading of both scripts. The export returns its lines. `reachable` stands for "the GET answered 200". `instance` stands for the version-document lookup by id, edition and version number.
- The upload loop's reading of rows, its read errors, its count and its index calls. `RowToDataset` is one row's document.
- scripts/retrieve-dataset-taxonomy/main.go is not part of this model.
- Index panics in the export script (an href without "datasets", or whose kept path lacks "editions/"; an ONS QMI with no `/` before "methodologies") are preconditions `LinkWellFormed`, `QmiWellFormed` and `Parsable`/`AllParsable`, not modelled panics.
- The missing-headers message of `check` comes from Go map iteration, whose order is unspecified. `UploadDatasets.Check` picks each absent header with `:|`, and its contract says only that the message lists each absent header once, in some order.
- CSV quoting: fields are wrapped in quotes without escaping, as the script does; a field holding a quote or a comma is not made safe.
- `Filters.ValidateTopics`: the vocabulary is a parameter `vocab`. `ValidTopics` is the source's table, and the lemmas about the fixed table instantiate `vocab` with it.
- `Strconv.Atoi`: Go's `strconv.Atoi` error values (syntax and range errors) are collapsed into `None`.
- `Datasets.ExceedsDefaultMaximum` is written as its two clauses joined by a comma, the same string.
- The export loop body is split into `ResolveLink` (the nested link checks), `ExportDataset` and `ExportLinked` (the rest of the body). Together they run the same statements in the same order.
- No handler calls `ValidateTopics` or `ValidateDimensions`. The `setErrorCode` call sites are api/datasets.go:47, 57, 70, 86 and 92, api/taxonomy.go:27, 91 and 98, and api/dimensions.go:25, and none of them passes a filter error. `Datasets.InvalidTopicsIs500` states what `setErrorCode` would answer for an `ErrorInvalidTopics` error: 500, because that error is fresh and in neither table. `Datasets.EchoedPhraseIs400` states an input whose error echoes the offset phrase and so would be classified 400. Any filter of at most ten entries whose joined unknown slugs contain the phrase would be classified 400 in the same way.
