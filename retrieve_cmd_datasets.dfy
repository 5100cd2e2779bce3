/**
 * The pure fragments of the CMD dataset export script
 * (scripts/retrieve-cmd-datasets/main.go): rewriting a dataset's
 * latest-version href into an ons.gov.uk link and an edition, reading the
 * lowest-level topic out of a QMI href, joining dimension names and labels,
 * assembling a CSV row, and the loop that turns the datasets into rows.
 */
module RetrieveCmdDatasets {
  import opened Wrappers
  import opened Strings
  import Strconv

  const OnsSite: string := "https://www.ons.gov.uk"

  /** The host prefix that marks a QMI href as an ons.gov.uk page. */
  const OnsRoot: string := "https://www.ons.gov.uk/"


  // ---------------------------------------------------------------------------
  // Links and editions

  /**
   * The path the link keeps: from after the first "datasets" through the
   * next "versions", cut short at a second "datasets" if one comes first.
   */
  function EndOfPath(href: string): string
    requires Contains(href, "datasets")
  {
    ThroughFirst(ThroughFirst(AfterFirst(href, "datasets"), "datasets"), "versions")
  }

  /** An href the script can take apart: it names "datasets", and the kept path names "editions/". */
  predicate LinkWellFormed(href: string) {
    Contains(href, "datasets") && Contains(EndOfPath(href), "editions/")
  }

  datatype Link = Link(url: string, edition: string)

  /** The ons.gov.uk link of a latest-version href and the edition it names. */
  function VersionLink(href: string): (l: Link)
    requires LinkWellFormed(href)
    ensures l.url == OnsSite + "/datasets" + EndOfPath(href)
    ensures l.edition ==
      TrimSuffix(ThroughFirst(AfterFirst(EndOfPath(href), "editions/"), "editions/"), "/versions")
  {
    LinkPieces(href);
    var splitHRef := SplitAfter(href, "datasets");
    var endOfPath := SplitAfter(splitHRef[1], "versions");
    var getEdition := SplitAfter(endOfPath[0], "editions/");
    Link(OnsSite + "/datasets" + endOfPath[0], TrimSuffix(getEdition[1], "/versions"))
  }

  /** The three SplitAfter calls of the link rewriting, piece by piece. */
  lemma {:induction false} LinkPieces(href: string)
    requires LinkWellFormed(href)
    ensures |SplitAfter(href, "datasets")| > 1
    ensures SplitAfter(SplitAfter(href, "datasets")[1], "versions")[0] == EndOfPath(href)
    ensures |SplitAfter(EndOfPath(href), "editions/")| > 1
    ensures SplitAfter(EndOfPath(href), "editions/")[1] ==
      ThroughFirst(AfterFirst(EndOfPath(href), "editions/"), "editions/")
  {
    var after := ThroughFirst(AfterFirst(href, "datasets"), "datasets");
    SplitAfterPieces(href, "datasets");
    assert SplitAfter(href, "datasets")[1] == after;
    SplitAfterPieces(after, "versions");
    SplitAfterPieces(EndOfPath(href), "editions/");
  }

  /** The kept path when the href names "datasets" once. */
  lemma {:induction false} EndOfPathSingle(host: string, rest: string)
    requires !Contains(host, "datasets") && !Contains(rest, "datasets")
    ensures Contains(host + "datasets" + rest, "datasets")
    ensures EndOfPath(host + "datasets" + rest) == ThroughFirst(rest, "versions")
  {
    assert forall k :: 0 < k < |"datasets"| ==> "datasets"[k] != "datasets"[0];
    FirstBehindFresh(host, "datasets", rest);
  }

  /** The canonical path of a version: `/<id>/editions/<edition>/versions`. */
  function ApiPath(id: string, edition: string): string {
    "/" + id + "/" + "editions/" + edition + "/" + "versions"
  }

  /** The kept path of a canonical href is its version path. */
  lemma {:induction false} CanonicalPath(host: string, id: string, edition: string, tail: string)
    requires !Contains(host, "datasets") && !Contains(ApiPath(id, edition) + tail, "datasets")
    requires !Contains("/" + id + "/" + "editions/" + edition, "versions")
    ensures Contains(host + "datasets" + ApiPath(id, edition) + tail, "datasets")
    ensures EndOfPath(host + "datasets" + ApiPath(id, edition) + tail) == ApiPath(id, edition)
  {
    var rest := ApiPath(id, edition) + tail;
    assert host + "datasets" + ApiPath(id, edition) + tail == host + "datasets" + rest;
    EndOfPathSingle(host, rest);
    var before := "/" + id + "/" + "editions/" + edition;
    assert '/' !in "versions";
    FirstBehindBarrier(before, '/', "versions", tail);
  }

  /** In a version path, what follows the first "editions/" is the edition and "/versions". */
  lemma {:induction false} AfterEditions(id: string, edition: string)
    requires !Contains("/" + id + "/", "editions/")
    ensures Contains(ApiPath(id, edition), "editions/")
    ensures AfterFirst(ApiPath(id, edition), "editions/") == edition + "/" + "versions"
  {
    var after := edition + "/" + "versions";
    assert ApiPath(id, edition) == "/" + id + "/" + "editions/" + after;
    assert forall k :: 0 < k < |"editions/"| ==> "editions/"[k] != "editions/"[0];
    FirstBehindFresh("/" + id + "/", "editions/", after);
  }

  /** An edition is what remains once "/versions" is trimmed, when no "editions/" follows it. */
  lemma {:induction false} TrimVersions(edition: string)
    requires !Contains(edition + "/" + "versions", "editions/")
    ensures TrimSuffix(ThroughFirst(edition + "/" + "versions", "editions/"), "/versions") == edition
  {
    var after := edition + "/" + "versions";
    assert after[|after| - 9..] == "/versions";
    assert after[..|after| - 9] == edition;
  }

  /** The edition read out of a version path. */
  lemma {:induction false} CanonicalEdition(id: string, edition: string)
    requires !Contains("/" + id + "/", "editions/") && !Contains(edition + "/" + "versions", "editions/")
    ensures Contains(ApiPath(id, edition), "editions/")
    ensures TrimSuffix(ThroughFirst(AfterFirst(ApiPath(id, edition), "editions/"), "editions/"), "/versions")
      == edition
  {
    AfterEditions(id, edition);
    TrimVersions(edition);
  }

  /**
   * A dataset API href `<host>datasets/<id>/editions/<edition>/versions<tail>`
   * becomes `https://www.ons.gov.uk/datasets/<id>/editions/<edition>/versions`
   * with edition `<edition>`, when "datasets" occurs only where the path
   * starts, no "versions" comes before the path's own, and no "editions/"
   * other than the path's own.
   */
  lemma {:induction false} CanonicalLink(host: string, id: string, edition: string, tail: string)
    requires !Contains(host, "datasets") && !Contains(ApiPath(id, edition) + tail, "datasets")
    requires !Contains("/" + id + "/" + "editions/" + edition, "versions")
    requires !Contains("/" + id + "/", "editions/") && !Contains(edition + "/" + "versions", "editions/")
    ensures LinkWellFormed(host + "datasets" + ApiPath(id, edition) + tail)
    ensures VersionLink(host + "datasets" + ApiPath(id, edition) + tail) ==
      Link(OnsSite + "/datasets" + ApiPath(id, edition), edition)
  {
    CanonicalPath(host, id, edition, tail);
    CanonicalEdition(id, edition);
  }

  /** Parts that lack a letter of each separator meet the conditions of CanonicalLink. */
  lemma {:induction false} FreeLetters(host: string, id: string, edition: string)
    requires 'd' !in host && 'v' !in id && 'e' !in id && 'v' !in edition && 'd' !in edition
    ensures !Contains(host, "datasets")
    ensures !Contains("/" + id + "/" + "editions/" + edition, "versions")
    ensures !Contains("/" + id + "/", "editions/") && !Contains(edition + "/" + "versions", "editions/")
  {
    LacksChar(host, "datasets", 'd');
    LacksChar("/" + id + "/" + "editions/" + edition, "versions", 'v');
    LacksChar("/" + id + "/", "editions/", 'e');
    LacksChar(edition + "/" + "versions", "editions/", 'd');
  }

  /** The usual case: edition "time-series" of the cpih01 dataset, version 6. */
  lemma {:induction false} ExampleLink(href: string)
    requires href == "http://localhost:22000/" + "datasets" + ApiPath("cpih01", "time-series") + "/6"
    ensures LinkWellFormed(href)
    ensures VersionLink(href) == Link(OnsSite + "/datasets" + ApiPath("cpih01", "time-series"), "time-series")
  {
    var host, id, edition, tail := "http://localhost:22000/", "cpih01", "time-series", "/6";
    LacksChar(ApiPath(id, edition) + tail, "datasets", 'a');
    FreeLetters(host, id, edition);
    CanonicalLink(host, id, edition, tail);
  }

  // ---------------------------------------------------------------------------
  // QMI topics

  /** The part of an ons.gov.uk QMI href after the host, through the first "methodologies". */
  function MethodologyPath(href: string): string
    requires Contains(href, OnsRoot)
  {
    ThroughFirst(ThroughFirst(AfterFirst(href, OnsRoot), OnsRoot), "methodologies")
  }

  /** The second-to-last `/`-segment of a path, without its slash. */
  function TopicOfSegment(path: string): (topic: string)
    requires Contains(path, "/")
    ensures |Split(path, "/")| >= 2
    ensures topic == Split(path, "/")[|Split(path, "/")| - 2]
  {
    SegmentPiece(path);
    var list := SplitAfter(path, "/");
    TrimRight(list[|list| - 2], "/")
  }

  /** The second-to-last SplitAfter piece is the Split piece with its `/` behind it. */
  lemma {:induction false} SegmentPiece(path: string)
    requires Contains(path, "/")
    ensures |Split(path, "/")| >= 2 && |SplitAfter(path, "/")| == |Split(path, "/")|
    ensures TrimRight(SplitAfter(path, "/")[|Split(path, "/")| - 2], "/") == Split(path, "/")[|Split(path, "/")| - 2]
  {
    SplitCount(path, "/");
    SplitAfterIsSplit(path, "/");
    SplitPiecesFree(path, "/");
    var n := |Split(path, "/")|;
    var piece := Split(path, "/")[n - 2];
    assert !Contains(piece, "/");
    CharFree(piece, "/");
    assert SplitAfter(path, "/")[n - 2] == piece + "/";
    TrimRightOne(piece, '/');
  }

  datatype QMIObject = QMIObject(href: string)

  /** A QMI the script can take apart: an ons.gov.uk href must have a `/` before "methodologies". */
  predicate QmiWellFormed(qmi: Option<QMIObject>) {
    qmi.Some? && qmi.value.href != "" && Contains(qmi.value.href, OnsRoot) ==>
      Contains(MethodologyPath(qmi.value.href), "/")
  }

  /** The topic written for a dataset: empty unless the QMI is an ons.gov.uk page. */
  function QmiTopic(qmi: Option<QMIObject>): (topic: string)
    requires QmiWellFormed(qmi)
    ensures qmi.None? || qmi.value.href == "" || !Contains(qmi.value.href, OnsRoot) ==> topic == ""
    ensures qmi.Some? && qmi.value.href != "" && Contains(qmi.value.href, OnsRoot) ==>
      topic == TopicOfSegment(MethodologyPath(qmi.value.href))
  {
    if qmi.Some? && qmi.value.href != "" then
      SplitCount(qmi.value.href, OnsRoot);
      SplitAfterPieces(qmi.value.href, OnsRoot);
      var qmiPath := SplitAfter(qmi.value.href, OnsRoot);
      if |qmiPath| > 1 then
        SplitAfterPieces(qmiPath[1], "methodologies");
        var qmiArray := SplitAfter(qmiPath[1], "methodologies");
        TopicOfSegment(qmiArray[0])
      else ""
    else ""
  }

  /** Slash-free segments joined by slashes split back into those segments. */
  lemma {:induction false} SplitSegments(segments: seq<string>, last: string)
    requires |segments| >= 1 && '/' !in last
    requires forall k :: 0 <= k < |segments| ==> '/' !in segments[k]
    ensures Split(Join(segments, "/") + "/" + last, "/") == segments + [last]
  {
    var parts := segments + [last];
    JoinSnoc(segments, last, "/");
    forall k | 0 <= k < |parts| ensures !Contains(parts[k], "/") {
      if k < |segments| {
        assert parts[k] == segments[k];
      } else {
        assert parts[k] == last;
      }
      FreeOfChar(parts[k], "/");
    }
    SplitJoin(parts, "/");
  }

  /** The segment right before a slash-free last piece is the topic. */
  lemma {:induction false} TopicBeforeLast(segments: seq<string>, last: string)
    requires |segments| >= 1 && '/' !in last
    requires forall k :: 0 <= k < |segments| ==> '/' !in segments[k]
    ensures Contains(Join(segments, "/") + "/" + last, "/")
    ensures TopicOfSegment(Join(segments, "/") + "/" + last) == segments[|segments| - 1]
  {
    var path := Join(segments, "/") + "/" + last;
    var parts := segments + [last];
    SplitSegments(segments, last);
    SplitCount(path, "/");
    assert parts[|parts| - 2] == segments[|segments| - 1];
  }

  /** The path of a methodology page: topic segments, then "methodologies" and the page. */
  function QmiPath(segments: seq<string>, rest: string): string {
    Join(segments, "/") + "/" + "methodologies" + rest
  }

  /**
   * An ons.gov.uk QMI href `https://www.ons.gov.uk/<a>/.../<t>/methodologies<rest>`
   * gives topic `<t>`, when no segment names "methodologies" and the path
   * does not repeat the host.
   */
  lemma {:induction false} OnsQmiTopic(segments: seq<string>, rest: string)
    requires |segments| >= 1
    requires forall k :: 0 <= k < |segments| ==> '/' !in segments[k]
    requires !Contains(Join(segments, "/"), "methodologies")
    requires !Contains(QmiPath(segments, rest), OnsRoot)
    ensures QmiWellFormed(Some(QMIObject(OnsRoot + QmiPath(segments, rest))))
    ensures QmiTopic(Some(QMIObject(OnsRoot + QmiPath(segments, rest)))) == segments[|segments| - 1]
  {
    var href := OnsRoot + QmiPath(segments, rest);
    var path := Join(segments, "/") + "/" + "methodologies";
    OnsQmiFacts(segments, rest);
    var qmi := Some(QMIObject(href));
    assert QmiWellFormed(qmi);
    assert QmiTopic(qmi) == TopicOfSegment(MethodologyPath(href));
  }

  lemma {:induction false} OnsQmiFacts(segments: seq<string>, rest: string)
    requires |segments| >= 1
    requires forall k :: 0 <= k < |segments| ==> '/' !in segments[k]
    requires !Contains(Join(segments, "/"), "methodologies")
    requires !Contains(QmiPath(segments, rest), OnsRoot)
    ensures OnsRoot + QmiPath(segments, rest) != ""
    ensures Contains(OnsRoot + QmiPath(segments, rest), OnsRoot)
    ensures MethodologyPath(OnsRoot + QmiPath(segments, rest)) == Join(segments, "/") + "/" + "methodologies"
    ensures Contains(Join(segments, "/") + "/" + "methodologies", "/")
    ensures TopicOfSegment(Join(segments, "/") + "/" + "methodologies") == segments[|segments| - 1]
  {
    OnsMethodologyPath(segments, rest);
    MethodologiesSlashFree();
    TopicBeforeLast(segments, "methodologies");
  }

  /** The keyword itself holds no slash, so it is the last `/`-segment of the path. */
  lemma {:induction false} MethodologiesSlashFree()
    ensures '/' !in "methodologies"
  {
  }

  lemma {:induction false} OnsMethodologyPath(segments: seq<string>, rest: string)
    requires !Contains(Join(segments, "/"), "methodologies")
    requires !Contains(QmiPath(segments, rest), OnsRoot)
    ensures Contains(OnsRoot + QmiPath(segments, rest), OnsRoot)
    ensures MethodologyPath(OnsRoot + QmiPath(segments, rest)) == Join(segments, "/") + "/" + "methodologies"
  {
    var p := Join(segments, "/");
    FirstAtStart(OnsRoot, QmiPath(segments, rest));
    assert "/" == ['/'];
    MethodologiesSlashFree();
    FirstBehindBarrier(p, '/', "methodologies", rest);
  }

  /** A methodology page filed under economy, inflation and price indices. */
  lemma {:induction false} ExampleQmi(href: string)
    requires href == OnsRoot + QmiPath(["economy", "inflationandpriceindices"], "/cpihqmi")
    ensures QmiWellFormed(Some(QMIObject(href)))
    ensures QmiTopic(Some(QMIObject(href))) == "inflationandpriceindices"
  {
    var segments := ["economy", "inflationandpriceindices"];
    assert segments[1..] == ["inflationandpriceindices"];
    assert Join(segments, "/") == "economy" + "/" + "inflationandpriceindices";
    LacksChar(Join(segments, "/"), "methodologies", 'h');
    assert OnsRoot[21] == 'k';
    LacksChar(QmiPath(segments, "/cpihqmi"), OnsRoot, 'k');
    OnsQmiTopic(segments, "/cpihqmi");
  }

  // ---------------------------------------------------------------------------
  // Dimensions

  datatype Dimension = Dimension(labelText: string, name: string)

  /** The label written for a dimension: its own, or its name when it has none. */
  function LabelOf(d: Dimension): string {
    if d.labelText == "" then d.name else d.labelText
  }

  function Names(dims: seq<Dimension>): (r: seq<string>)
    ensures |r| == |dims| && forall i :: 0 <= i < |dims| ==> r[i] == dims[i].name
  {
    if |dims| == 0 then [] else Names(dims[..|dims| - 1]) + [dims[|dims| - 1].name]
  }

  function Labels(dims: seq<Dimension>): (r: seq<string>)
    ensures |r| == |dims| && forall i :: 0 <= i < |dims| ==> r[i] == LabelOf(dims[i])
  {
    if |dims| == 0 then [] else Labels(dims[..|dims| - 1]) + [LabelOf(dims[|dims| - 1])]
  }

  /** The dimension loop: names and labels, each `:`-separated in input order. */
  method JoinDimensions(dims: seq<Dimension>) returns (dimensionNames: string, dimensionLabels: string)
    ensures dimensionNames == Join(Names(dims), ":")
    ensures dimensionLabels == Join(Labels(dims), ":")
  {
    dimensionNames, dimensionLabels := "", "";
    for i := 0 to |dims|
      invariant dimensionNames == Join(Names(dims[..i]), ":")
      invariant dimensionLabels == Join(Labels(dims[..i]), ":")
    {
      var dimension := dims[i];
      var lbl := dimension.labelText;
      if lbl == "" {
        lbl := dimension.name;
      }
      assert dims[..i + 1][..i] == dims[..i];
      if i == 0 {
        dimensionNames := dimensionNames + dimension.name;
        dimensionLabels := dimensionLabels + lbl;
      } else {
        JoinSnoc(Names(dims[..i]), dimension.name, ":");
        JoinSnoc(Labels(dims[..i]), lbl, ":");
        dimensionNames := dimensionNames + ":" + dimension.name;
        dimensionLabels := dimensionLabels + ":" + lbl;
      }
    }
    assert dims[..|dims|] == dims;
  }

  /** Occurrences of `c` in `s`. */
  function Count(s: string, c: char): nat {
    if |s| == 0 then 0 else (if s[0] == c then 1 else 0) + Count(s[1..], c)
  }

  lemma {:induction false} CountAppend(a: string, b: string, c: char)
    ensures Count(a + b, c) == Count(a, c) + Count(b, c)
  {
    if |a| == 0 {
      assert a + b == b;
    } else {
      assert (a + b)[0] == a[0];
      assert (a + b)[1..] == a[1..] + b;
      CountAppend(a[1..], b, c);
    }
  }

  lemma {:induction false} CountFree(s: string, c: char)
    requires c !in s
    ensures Count(s, c) == 0
  {
    if |s| > 0 {
      assert s[1..] == s[1..];
      CountFree(s[1..], c);
    }
  }

  /** Joining n separator-free parts with a one-character separator puts in exactly n - 1 separators. */
  lemma {:induction false} JoinSeparators(parts: seq<string>, c: char)
    requires |parts| >= 1
    requires forall k :: 0 <= k < |parts| ==> c !in parts[k]
    ensures Count(Join(parts, [c]), c) == |parts| - 1
  {
    CountFree(parts[0], c);
    if |parts| > 1 {
      JoinSeparators(parts[1..], c);
      CountAppend(parts[0], [c], c);
      CountAppend(parts[0] + [c], Join(parts[1..], [c]), c);
    }
  }

  /**
   * n dimensions give n - 1 separators, and splitting at `:` gives back
   * every name and every label, when none of them contains a `:`.
   * No dimensions give two empty strings.
   */
  lemma {:induction false} DimensionsRoundTrip(dims: seq<Dimension>)
    requires forall i :: 0 <= i < |dims| ==> ':' !in dims[i].name && ':' !in LabelOf(dims[i])
    ensures |dims| == 0 ==> Join(Names(dims), ":") == "" && Join(Labels(dims), ":") == ""
    ensures |dims| >= 1 ==> Split(Join(Names(dims), ":"), ":") == Names(dims)
    ensures |dims| >= 1 ==> Split(Join(Labels(dims), ":"), ":") == Labels(dims)
    ensures |dims| >= 1 ==> Count(Join(Names(dims), ":"), ':') == |dims| - 1
  {
    if |dims| >= 1 {
      var names, labels := Names(dims), Labels(dims);
      forall k | 0 <= k < |dims| ensures !Contains(names[k], ":") && !Contains(labels[k], ":") {
        FreeOfChar(names[k], ":");
        FreeOfChar(labels[k], ":");
      }
      SplitJoin(names, ":");
      SplitJoin(labels, ":");
      JoinSeparators(names, ':');
    }
  }

  // ---------------------------------------------------------------------------
  // Rows

  function Quote(s: string): string {
    "\"" + s + "\""
  }

  /** The seven fields of a row, in header order; five of them quoted, none escaped. */
  function Fields(title: string, id: string, description: string, topic: string, url: string,
                  names: string, labels: string): seq<string>
  {
    [Quote(title), id, Quote(description), Quote(topic), url, Quote(names), Quote(labels)]
  }

  /** Seven parts joined with commas, written out. */
  lemma {:induction false} JoinSeven(a: string, b: string, c: string, d: string, e: string, f: string, g: string)
    ensures Join([a, b, c, d, e, f, g], ",") ==
      a + "," + b + "," + c + "," + d + "," + e + "," + f + "," + g
  {
    assert [a] + [b] == [a, b];
    JoinSnoc([a], b, ",");
    assert [a, b] + [c] == [a, b, c];
    JoinSnoc([a, b], c, ",");
    assert [a, b, c] + [d] == [a, b, c, d];
    JoinSnoc([a, b, c], d, ",");
    assert [a, b, c, d] + [e] == [a, b, c, d, e];
    JoinSnoc([a, b, c, d], e, ",");
    assert [a, b, c, d, e] + [f] == [a, b, c, d, e, f];
    JoinSnoc([a, b, c, d, e], f, ",");
    assert [a, b, c, d, e, f] + [g] == [a, b, c, d, e, f, g];
    JoinSnoc([a, b, c, d, e, f], g, ",");
  }

  /** The script's concatenation is the quoted fields with a comma between each two. */
  lemma {:induction false} RowLayout(title: string, id: string, description: string, topic: string, url: string,
                  names: string, labels: string)
    ensures "\"" + title + "\"," + id + ",\"" + description + "\",\"" + topic + "\"," + url + ",\"" +
      names + "\",\"" + labels + "\"" + "\n" ==
      Quote(title) + "," + id + "," + Quote(description) + "," + Quote(topic) + "," + url + "," +
      Quote(names) + "," + Quote(labels) + "\n"
  {
  }

  /** One line of the export. */
  function CsvRow(title: string, id: string, description: string, topic: string, url: string,
                  names: string, labels: string): (row: string)
    ensures row == Join(Fields(title, id, description, topic, url, names, labels), ",") + "\n"
  {
    JoinSeven(Quote(title), id, Quote(description), Quote(topic), url, Quote(names), Quote(labels));
    RowLayout(title, id, description, topic, url, names, labels);
    "\"" + title + "\"," + id + ",\"" + description + "\",\"" + topic + "\"," + url + ",\"" +
      names + "\",\"" + labels + "\"" + "\n"
  }

  /** The seven column names, in the order every row follows. */
  const HeaderColumns: seq<string> :=
    ["title", "alias", "description", "topic", "ons-link", "dimension-names", "dimension-labels"]

  /** The first line of the export: `title,alias,...,dimension-labels` and a newline. */
  const HeaderLine: string := Join(HeaderColumns, ",") + "\n"

  /** The header splits back into the seven columns. */
  lemma {:induction false} HeaderNamesColumns()
    ensures HasSuffix(HeaderLine, "\n")
    ensures Split(HeaderLine[..|HeaderLine| - 1], ",") == HeaderColumns
  {
    var h := HeaderColumns;
    forall k | 0 <= k < |h| ensures !Contains(h[k], ",") {
      FreeOfChar(h[k], ",");
    }
    SplitJoin(h, ",");
    assert HeaderLine[..|HeaderLine| - 1] == Join(h, ",");
  }

  /**
   * A row is seven comma-separated fields in header order when no field
   * carries a comma of its own: title, description, topic, names and labels
   * quoted, id and url bare, then a newline.
   */
  lemma {:induction false} RowFields(title: string, id: string, description: string, topic: string, url: string,
                  names: string, labels: string)
    requires ',' !in title && ',' !in id && ',' !in description && ',' !in topic
    requires ',' !in url && ',' !in names && ',' !in labels
    ensures HasSuffix(CsvRow(title, id, description, topic, url, names, labels), "\n")
    ensures var row := CsvRow(title, id, description, topic, url, names, labels);
      Split(row[..|row| - 1], ",") == Fields(title, id, description, topic, url, names, labels)
    ensures |Fields(title, id, description, topic, url, names, labels)| == |HeaderColumns|
  {
    var f := Fields(title, id, description, topic, url, names, labels);
    var row := CsvRow(title, id, description, topic, url, names, labels);
    forall k | 0 <= k < |f| ensures !Contains(f[k], ",") {
      FreeOfChar(f[k], ",");
    }
    SplitJoin(f, ",");
    assert row[..|row| - 1] == Join(f, ",");
  }

  // ---------------------------------------------------------------------------
  // Datasets and the export loop

  datatype LinkObject = LinkObject(href: string, id: string)
  datatype DatasetLinks = DatasetLinks(latestVersion: Option<LinkObject>)
  datatype Dataset = Dataset(description: string, links: Option<DatasetLinks>, qmi: Option<QMIObject>,
                             title: string)
  /** A dataset document; `None` stands for Go's nil pointer. */
  datatype DatasetUpdate = DatasetUpdate(id: string, current: Option<Dataset>)

  /** The latest-version link, when the document has current, links, latest_version and a non-empty href. */
  function LatestVersion(d: DatasetUpdate): Option<LinkObject> {
    if d.current.Some? && d.current.value.links.Some? && d.current.value.links.value.latestVersion.Some?
       && d.current.value.links.value.latestVersion.value.href != ""
    then d.current.value.links.value.latestVersion
    else None
  }

  /**
   * A document the script gets through without an index panic: a present
   * link must be well formed, and so must the QMI of a dataset whose link answers.
   */
  predicate Parsable(d: DatasetUpdate, reachable: string -> bool) {
    LatestVersion(d).Some? ==>
      LinkWellFormed(LatestVersion(d).value.href) &&
      (reachable(VersionLink(LatestVersion(d).value.href).url) ==> QmiWellFormed(d.current.value.qmi))
  }

  /** What one dataset contributes: nothing, a row, or the end of the run (`os.Exit(1)`). */
  datatype Step = Skip | Row(line: string) | Exit

  /**
   * One pass of the loop body. `reachable` stands for the GET of the ons.gov.uk
   * link answering 200; `instance` for the lookup of the dataset's version
   * document by id, edition and version number.
   */
  function DatasetStep(d: DatasetUpdate, reachable: string -> bool,
                       instance: (string, string, int) -> Option<seq<Dimension>>): Step
    requires Parsable(d, reachable)
  {
    match LatestVersion(d)
    case None => Skip
    case Some(link) =>
      var l := VersionLink(link.href);
      if !reachable(l.url) then Skip
      else LinkedStep(d, link.id, l, instance)
  }

  /** The rest of the loop body once the link answers: the version number, the version document, the row. */
  function LinkedStep(d: DatasetUpdate, versionId: string, l: Link,
                      instance: (string, string, int) -> Option<seq<Dimension>>): Step
    requires d.current.Some? && QmiWellFormed(d.current.value.qmi)
  {
    var current := d.current.value;
    var topic := QmiTopic(current.qmi);
    match Strconv.Atoi(versionId)
    case None => Exit
    case Some(version) =>
      match instance(d.id, l.edition, version)
      case None => Exit
      case Some(dims) =>
        Row(CsvRow(current.title, d.id, current.description, topic, l.url,
                   Join(Names(dims), ":"), Join(Labels(dims), ":")))
  }

  /**
   * A dataset is skipped exactly when it has no link or its link does not
   * answer, and ends the run exactly when its version number or version
   * document cannot be read.
   */
  lemma {:induction false} StepOutcomes(d: DatasetUpdate, reachable: string -> bool,
                     instance: (string, string, int) -> Option<seq<Dimension>>)
    requires Parsable(d, reachable)
    ensures DatasetStep(d, reachable, instance).Skip? <==> LatestVersion(d).None? || !reachable(VersionLink(LatestVersion(d).value.href).url)
    ensures DatasetStep(d, reachable, instance).Exit? <==>
      (LatestVersion(d).Some? && reachable(VersionLink(LatestVersion(d).value.href).url) &&
       (Strconv.Atoi(LatestVersion(d).value.id).None? ||
        instance(d.id, VersionLink(LatestVersion(d).value.href).edition,
                 Strconv.Atoi(LatestVersion(d).value.id).value).None?))
  {
  }

  /** A document lacking current, links, latest_version or an href yields no row. */
  lemma {:induction false} NoLinkNoRow(d: DatasetUpdate, reachable: string -> bool,
                    instance: (string, string, int) -> Option<seq<Dimension>>)
    requires d.current.None? || d.current.value.links.None? ||
      d.current.value.links.value.latestVersion.None? || d.current.value.links.value.latestVersion.value.href == ""
    ensures Parsable(d, reachable)
    ensures DatasetStep(d, reachable, instance) == Skip
  {
  }

  /** Every row a dataset yields is its title, id, description, QMI topic, link and dimensions. */
  lemma {:induction false} RowOfDataset(d: DatasetUpdate, reachable: string -> bool,
                     instance: (string, string, int) -> Option<seq<Dimension>>)
    requires Parsable(d, reachable) && DatasetStep(d, reachable, instance).Row?
    ensures LatestVersion(d).Some? && d.current.Some?
    ensures reachable(VersionLink(LatestVersion(d).value.href).url) && QmiWellFormed(d.current.value.qmi)
    ensures Strconv.Atoi(LatestVersion(d).value.id).Some?
    ensures instance(d.id, VersionLink(LatestVersion(d).value.href).edition,
                     Strconv.Atoi(LatestVersion(d).value.id).value).Some?
    ensures var link := VersionLink(LatestVersion(d).value.href);
      var dims := instance(d.id, link.edition, Strconv.Atoi(LatestVersion(d).value.id).value).value;
      DatasetStep(d, reachable, instance).line ==
        Join([Quote(d.current.value.title), d.id, Quote(d.current.value.description),
              Quote(QmiTopic(d.current.value.qmi)), link.url,
              Quote(Join(Names(dims), ":")), Quote(Join(Labels(dims), ":"))], ",") + "\n"
  {
    StepOutcomes(d, reachable, instance);
    var link := LatestVersion(d).value;
    var l := VersionLink(link.href);
    var dims := instance(d.id, l.edition, Strconv.Atoi(link.id).value).value;
    var current := d.current.value;
    assert DatasetStep(d, reachable, instance) == LinkedStep(d, link.id, l, instance);
    assert LinkedStep(d, link.id, l, instance) ==
      Row(CsvRow(current.title, d.id, current.description, QmiTopic(current.qmi), l.url,
                 Join(Names(dims), ":"), Join(Labels(dims), ":")));
  }

  /** The rows written after the header, and whether the run ended early. */
  datatype Run = Run(rows: seq<string>, exited: bool)

  /** The loop's bookkeeping over a sequence of steps: rows in order, nothing after the first Exit. */
  function Fold(steps: seq<Step>): (r: Run)
    ensures |r.rows| <= |steps|
  {
    if |steps| == 0 then Run([], false)
    else
      var prev := Fold(steps[..|steps| - 1]);
      if prev.exited then prev
      else match steps[|steps| - 1]
        case Skip => prev
        case Row(line) => Run(prev.rows + [line], false)
        case Exit => Run(prev.rows, true)
  }

  /**
   * Folding a concatenation folds the first part and, unless it exited, then
   * the second: rows keep the order of their steps and nothing runs after an exit.
   */
  lemma {:induction false} FoldAppend(a: seq<Step>, b: seq<Step>)
    ensures Fold(a).exited ==> Fold(a + b) == Fold(a)
    ensures !Fold(a).exited ==> Fold(a + b) == Run(Fold(a).rows + Fold(b).rows, Fold(b).exited)
    decreases |b|
  {
    if |b| == 0 {
      assert a + b == a;
    } else {
      var front := b[..|b| - 1];
      FoldAppend(a, front);
      assert (a + b)[..|a + b| - 1] == a + front;
      assert (a + b)[|a + b| - 1] == b[|b| - 1];
    }
  }

  /** The fold ends early exactly when some step is an Exit. */
  lemma {:induction false} FoldExits(steps: seq<Step>)
    ensures Fold(steps).exited <==> exists k :: 0 <= k < |steps| && steps[k].Exit?
  {
    if |steps| > 0 {
      var front := steps[..|steps| - 1];
      FoldExits(front);
      if exists k :: 0 <= k < |front| && front[k].Exit? {
        var k :| 0 <= k < |front| && front[k].Exit?;
        assert steps[k].Exit?;
      }
    }
  }

  /** Without an Exit, the rows are the lines of the Row steps, in order. */
  lemma {:induction false} FoldRows(steps: seq<Step>)
    requires forall k :: 0 <= k < |steps| ==> !steps[k].Exit?
    ensures Fold(steps).rows == Lines(steps)
  {
    if |steps| > 0 {
      FoldExits(steps[..|steps| - 1]);
      FoldRows(steps[..|steps| - 1]);
    }
  }

  /** The lines of the Row steps, in order. */
  function Lines(steps: seq<Step>): (r: seq<string>)
    ensures |r| <= |steps|
  {
    if |steps| == 0 then []
    else Lines(steps[..|steps| - 1]) + (if steps[|steps| - 1].Row? then [steps[|steps| - 1].line] else [])
  }

  predicate AllParsable(ds: seq<DatasetUpdate>, reachable: string -> bool) {
    forall k {:trigger Parsable(ds[k], reachable)} :: 0 <= k < |ds| ==> Parsable(ds[k], reachable)
  }

  /** The step of every dataset, in order. */
  function Steps(ds: seq<DatasetUpdate>, reachable: string -> bool,
                 instance: (string, string, int) -> Option<seq<Dimension>>): (r: seq<Step>)
    requires AllParsable(ds, reachable)
    ensures |r| == |ds|
  {
    if |ds| == 0 then []
    else Steps(ds[..|ds| - 1], reachable, instance) + [DatasetStep(ds[|ds| - 1], reachable, instance)]
  }

  /** The k-th step is the k-th dataset's. */
  lemma {:induction false} StepsAt(ds: seq<DatasetUpdate>, reachable: string -> bool,
                                   instance: (string, string, int) -> Option<seq<Dimension>>, k: nat)
    requires AllParsable(ds, reachable) && k < |ds|
    ensures Steps(ds, reachable, instance)[k] == DatasetStep(ds[k], reachable, instance)
  {
    if k < |ds| - 1 {
      StepsAt(ds[..|ds| - 1], reachable, instance, k);
    }
  }

  /** The steps of a concatenation are the steps of its parts. */
  lemma {:induction false} StepsAppend(a: seq<DatasetUpdate>, b: seq<DatasetUpdate>, reachable: string -> bool,
                                       instance: (string, string, int) -> Option<seq<Dimension>>)
    requires AllParsable(a + b, reachable)
    ensures AllParsable(a, reachable) && AllParsable(b, reachable)
    ensures Steps(a + b, reachable, instance) == Steps(a, reachable, instance) + Steps(b, reachable, instance)
    decreases |b|
  {
    assert forall k :: 0 <= k < |a| ==> a[k] == (a + b)[k];
    assert forall k :: 0 <= k < |b| ==> b[k] == (a + b)[|a| + k];
    if |b| == 0 {
      assert a + b == a;
    } else {
      var front := b[..|b| - 1];
      assert (a + b)[..|a + b| - 1] == a + front;
      StepsAppend(a, front, reachable, instance);
    }
  }

  /**
   * The export: the header line, then one line per dataset that has a
   * reachable link, in order, stopping at the first dataset whose version
   * cannot be read.
   */
  method ExportAll(datasets: seq<DatasetUpdate>, reachable: string -> bool,
                   instance: (string, string, int) -> Option<seq<Dimension>>)
    returns (lines: seq<string>, exited: bool)
    requires AllParsable(datasets, reachable)
    ensures lines == [HeaderLine] + Fold(Steps(datasets, reachable, instance)).rows
    ensures exited == Fold(Steps(datasets, reachable, instance)).exited
  {
    var rows: seq<string> := [];
    exited := false;
    ghost var expected := Steps(datasets, reachable, instance);
    for i := 0 to |datasets|
      invariant Fold(expected[..i]) == Run(rows, false)
    {
      var step := ExportDataset(datasets[i], reachable, instance);
      StepsAt(datasets, reachable, instance, i);
      PrefixSnoc(expected, i);
      match step {
        case Skip =>
          FoldSkip(expected[..i], step);
        case Exit =>
          exited := true;
          FoldExit(expected[..i], step);
          PrefixWhole(expected, i + 1);
          FoldAppend(expected[..i + 1], expected[i + 1..]);
          lines := [HeaderLine] + rows;
          return;
        case Row(row) =>
          FoldRow(expected[..i], row);
          rows := rows + [row];
      }
    }
    PrefixWhole(expected, |datasets|);
    lines := [HeaderLine] + rows;
  }

  lemma {:induction false} PrefixSnoc(s: seq<Step>, i: nat)
    requires i < |s|
    ensures s[..i + 1] == s[..i] + [s[i]]
  {
  }

  lemma {:induction false} PrefixWhole(s: seq<Step>, i: nat)
    requires i <= |s|
    ensures s[..i] + s[i..] == s && s[..|s|] == s
  {
  }

  lemma {:induction false} FoldSkip(front: seq<Step>, step: Step)
    requires step.Skip?
    ensures Fold(front + [step]) == Fold(front)
  {
    assert (front + [step])[..|front|] == front;
  }

  lemma {:induction false} FoldExit(front: seq<Step>, step: Step)
    requires step.Exit? && !Fold(front).exited
    ensures Fold(front + [step]) == Run(Fold(front).rows, true)
  {
    assert (front + [step])[..|front|] == front;
  }

  lemma {:induction false} FoldRow(front: seq<Step>, row: string)
    requires !Fold(front).exited
    ensures Fold(front + [Row(row)]) == Run(Fold(front).rows + [row], false)
  {
    assert (front + [Row(row)])[..|front|] == front;
  }

  /** A version link always names the ONS site. */
  lemma {:induction false} LinkUrlNonEmpty(href: string)
    requires LinkWellFormed(href)
    ensures VersionLink(href).url != ""
  {
    assert |OnsSite| > 0;
  }

  /**
   * The nested checks at the top of the loop body: the page URL and edition
   * of a dataset whose link answers, and an empty URL when there is no link
   * or it does not answer.
   */
  method ResolveLink(dataset: DatasetUpdate, reachable: string -> bool) returns (url: string, edition: string)
    requires Parsable(dataset, reachable)
    ensures url == "" <==> LatestVersion(dataset).None? || !reachable(VersionLink(LatestVersion(dataset).value.href).url)
    ensures url != "" ==>
      url == VersionLink(LatestVersion(dataset).value.href).url &&
      edition == VersionLink(LatestVersion(dataset).value.href).edition
  {
    url, edition := "", "";
    if dataset.current.Some? {
      if dataset.current.value.links.Some? {
        if dataset.current.value.links.value.latestVersion.Some? {
          if dataset.current.value.links.value.latestVersion.value.href != "" {
            var href := dataset.current.value.links.value.latestVersion.value.href;
            var link := VersionLink(href);
            LinkUrlNonEmpty(href);
            url, edition := link.url, link.edition;
            if !reachable(url) {
              return "", "";
            }
          }
        }
      }
    }
  }

  /**
   * The loop body for one dataset: `Skip` where the script continues,
   * `Exit` where it calls os.Exit(1), otherwise the row it writes.
   */
  method ExportDataset(dataset: DatasetUpdate, reachable: string -> bool,
                       instance: (string, string, int) -> Option<seq<Dimension>>)
    returns (step: Step)
    requires Parsable(dataset, reachable)
    ensures step == DatasetStep(dataset, reachable, instance)
  {
    var url, edition := ResolveLink(dataset, reachable);
    if url == "" {
      return Skip;
    }
    var latestVersion := dataset.current.value.links.value.latestVersion.value.id;
    step := ExportLinked(dataset, latestVersion, url, edition, instance);
  }

  /** The loop body after the link check: the version number, the version document, then the row. */
  method ExportLinked(dataset: DatasetUpdate, latestVersion: string, url: string, edition: string,
                      instance: (string, string, int) -> Option<seq<Dimension>>)
    returns (step: Step)
    requires dataset.current.Some? && QmiWellFormed(dataset.current.value.qmi)
    ensures step == LinkedStep(dataset, latestVersion, Link(url, edition), instance)
  {
    var topic := QmiTopic(dataset.current.value.qmi);
    var versionNumber := Strconv.Atoi(latestVersion);
    if versionNumber.None? {
      return Exit;
    }
    var version := instance(dataset.id, edition, versionNumber.value);
    if version.None? {
      return Exit;
    }
    var dimensionNames, dimensionLabels := JoinDimensions(version.value);
    var row := CsvRow(dataset.current.value.title, dataset.id, dataset.current.value.description, topic, url,
                      dimensionNames, dimensionLabels);
    return Row(row);
  }
}
