/**
 * The pure parts of the dataset upload script (scripts/upload-datasets/main.go):
 * validation of the CSV header row, the inversion of the taxonomy into a
 * slug-to-ancestors table, and the mapping of a CSV row to a search document.
 */
module UploadDatasets {
  import opened Wrappers
  import opened Taxonomy
  import Strings
  import RetrieveCmdDatasets

  /** The keys of validHeaders: the five columns the CSV must have. */
  const ValidHeaders: set<string> := {"alias", "description", "ons-link", "title", "topic"}

  /** The first column whose header is not one of the five, if any. */
  function FirstInvalid(row: seq<string>): (r: Option<nat>)
    ensures r.Some? ==> r.value < |row| && row[r.value] !in ValidHeaders &&
                        (forall j :: 0 <= j < r.value ==> row[j] in ValidHeaders)
    ensures r.None? <==> forall j :: 0 <= j < |row| ==> row[j] in ValidHeaders
  {
    if row == [] then None
    else if row[0] !in ValidHeaders then Some(0)
    else match FirstInvalid(row[1..])
      case None => None
      case Some(k) => Some(k + 1)
  }

  /** The last column carrying header `h`. */
  function LastIndex(row: seq<string>, h: string): (r: nat)
    requires h in row
    ensures r < |row| && row[r] == h
    ensures forall j :: r < j < |row| ==> row[j] != h
  {
    if row[|row| - 1] == h then |row| - 1 else LastIndex(row[..|row| - 1], h)
  }

  /** indexHeader: every header of the row bound to the last column that carries it. */
  function HeaderIndex(row: seq<string>): map<string, nat> {
    map h | h in row :: LastIndex(row, h)
  }

  /** The required headers the row lacks. */
  function Missing(row: seq<string>): set<string> {
    set h | h in ValidHeaders && h !in row
  }

  /** The missing-headers list: each key followed by one space. */
  function Spaced(keys: seq<string>): string {
    if keys == [] then "" else Spaced(keys[..|keys| - 1]) + keys[|keys| - 1] + " "
  }

  /** Adding one more column to the row rebinds its header to that column. */
  lemma {:induction false} HeaderIndexSnoc(row: seq<string>, h: string)
    ensures HeaderIndex(row + [h]) == HeaderIndex(row)[h := |row|]
  {
    var row' := row + [h];
    assert row'[..|row|] == row;
    forall x | x in row
      ensures x in row' && (x != h ==> LastIndex(row', x) == LastIndex(row, x))
    {
    }
  }

  /** The first unknown header is the one the loop stops at. */
  lemma {:induction false} FirstInvalidAt(row: seq<string>, i: nat)
    requires i < |row| && row[i] !in ValidHeaders
    requires forall j :: 0 <= j < i ==> row[j] in ValidHeaders
    ensures FirstInvalid(row) == Some(i)
  {
  }

  /**
   * The header row the export script writes is not one `check` accepts: its
   * first five columns are valid headers, but the sixth, "dimension-names", is not.
   */
  lemma {:induction false} ExportHeaderRefused()
    ensures FirstInvalid(RetrieveCmdDatasets.HeaderColumns) == Some(5)
    ensures RetrieveCmdDatasets.HeaderColumns[5] == "dimension-names"
  {
    var h := RetrieveCmdDatasets.HeaderColumns;
    assert h[0] in ValidHeaders && h[1] in ValidHeaders && h[2] in ValidHeaders;
    assert h[3] in ValidHeaders && h[4] in ValidHeaders && h[5] !in ValidHeaders;
    FirstInvalidAt(h, 5);
  }

  /** Taking one more key out of the unvisited ones adds it to the listed missing headers when it is missing. */
  lemma {:induction false} MissingStep(row: seq<string>, remaining: set<string>, key: string, listed: seq<string>)
    requires key in remaining
    requires multiset(listed) == multiset(Missing(row) - remaining)
    ensures key in Missing(row) ==> multiset(listed + [key]) == multiset(Missing(row) - (remaining - {key}))
    ensures key !in Missing(row) ==> multiset(listed) == multiset(Missing(row) - (remaining - {key}))
  {
    if key in Missing(row) {
      assert Missing(row) - (remaining - {key}) == (Missing(row) - remaining) + {key};
    } else {
      assert Missing(row) - (remaining - {key}) == Missing(row) - remaining;
    }
  }

  /** A listing of a set is empty exactly when the set is. */
  lemma {:induction false} ListingEmpty(listed: seq<string>, s: set<string>)
    requires multiset(listed) == multiset(s)
    ensures listed == [] <==> s == {}
  {
    if listed != [] {
      assert listed[0] in multiset(s);
    }
    if s != {} {
      var x :| x in s;
      assert x in multiset(listed);
    }
  }

  /**
   * check: an empty row, then the first unknown header, then the set of
   * absent headers (listed in an unspecified order, as Go's map iteration
   * is), and otherwise each header's column.
   */
  method Check(headerRow: seq<string>) returns (r: Result<map<string, nat>, string>)
    ensures |headerRow| == 0 ==> r == Err("empty header row")
    ensures |headerRow| > 0 && FirstInvalid(headerRow).Some? ==>
      r == Err("invalid header: " + headerRow[FirstInvalid(headerRow).value])
    ensures |headerRow| > 0 && FirstInvalid(headerRow).None? && Missing(headerRow) != {} ==>
      r.Err? && exists keys :: multiset(keys) == multiset(Missing(headerRow)) &&
                               r.error == "missing header in row: " + Spaced(keys)
    ensures |headerRow| > 0 && FirstInvalid(headerRow).None? && Missing(headerRow) == {} ==>
      r == Ok(HeaderIndex(headerRow))
  {
    var hasHeaders := map h | h in ValidHeaders :: false;
    if |headerRow| < 1 {
      return Err("empty header row");
    }

    var indexHeader: map<string, nat> := map[];
    var i := 0;
    while i < |headerRow|
      invariant 0 <= i <= |headerRow|
      invariant forall j :: 0 <= j < i ==> headerRow[j] in ValidHeaders
      invariant hasHeaders.Keys == ValidHeaders
      invariant forall h :: h in ValidHeaders ==> (hasHeaders[h] <==> h in headerRow[..i])
      invariant indexHeader == HeaderIndex(headerRow[..i])
    {
      var header := headerRow[i];
      if header !in ValidHeaders {
        FirstInvalidAt(headerRow, i);
        return Err("invalid header: " + header);
      }
      assert headerRow[..i + 1] == headerRow[..i] + [header];
      HeaderIndexSnoc(headerRow[..i], header);
      hasHeaders := hasHeaders[header := true];
      indexHeader := indexHeader[header := i];
      i := i + 1;
    }
    assert headerRow[..i] == headerRow;

    var hasHeadersMissing := false;
    var missingHeaders := "";
    var remaining := hasHeaders.Keys;
    ghost var listed: seq<string> := [];
    while remaining != {}
      invariant remaining <= ValidHeaders
      invariant multiset(listed) == multiset(Missing(headerRow) - remaining)
      invariant missingHeaders == Spaced(listed)
      invariant hasHeadersMissing <==> listed != []
      decreases |remaining|
    {
      var key :| key in remaining;
      MissingStep(headerRow, remaining, key, listed);
      if !hasHeaders[key] {
        hasHeadersMissing := true;
        missingHeaders := missingHeaders + key + " ";
        assert (listed + [key])[..|listed|] == listed;
        listed := listed + [key];
      }
      remaining := remaining - {key};
    }
    assert Missing(headerRow) - remaining == Missing(headerRow);
    ListingEmpty(listed, Missing(headerRow));

    if hasHeadersMissing {
      return Err("missing header in row: " + missingHeaders);
    }
    return Ok(indexHeader);
  }

  /** On success exactly the five headers are bound. */
  lemma {:induction false} CheckedKeys(row: seq<string>)
    requires FirstInvalid(row).None? && Missing(row) == {}
    ensures HeaderIndex(row).Keys == ValidHeaders
  {
    forall h | h in HeaderIndex(row)
      ensures h in ValidHeaders
    {
      var j :| 0 <= j < |row| && row[j] == h;
    }
    forall h | h in ValidHeaders
      ensures h in HeaderIndex(row)
    {
      assert h !in Missing(row);
    }
  }

  /** On success each of the five headers is bound to the last column that carries it. */
  lemma {:induction false} CheckedIndex(row: seq<string>)
    requires FirstInvalid(row).None? && Missing(row) == {}
    ensures HeaderIndex(row).Keys == ValidHeaders
    ensures forall h :: h in ValidHeaders ==>
      HeaderIndex(row)[h] < |row| && row[HeaderIndex(row)[h]] == h &&
      (forall j :: HeaderIndex(row)[h] < j < |row| ==> row[j] != h)
  {
    CheckedKeys(row);
  }

  /** Each listed header appears in the message, followed by a space. */
  lemma {:induction false} SpacedNames(keys: seq<string>, k: nat)
    requires k < |keys|
    ensures Strings.Contains(Spaced(keys), keys[k] + " ")
  {
    var n := |keys| - 1;
    var front := Spaced(keys[..n]);
    var s := Spaced(keys);
    var sub := keys[k] + " ";
    assert s == front + keys[n] + " ";
    if k == n {
      assert s[|front|..|front| + |sub|] == sub;
      Strings.ContainsAt(s, sub, |front|);
    } else {
      assert keys[..n][k] == keys[k];
      SpacedNames(keys[..n], k);
      var i := Strings.Index(front, sub).value;
      assert s[i..i + |sub|] == front[i..i + |sub|];
      Strings.ContainsAt(s, sub, i);
    }
  }

  /** The three ancestor slugs recorded for a topic; empty strings for levels it does not have. */
  datatype TopicLevels = TopicLevels(topicLevel1: string, topicLevel2: string, topicLevel3: string)

  /** The entries the inversion writes for grandchildren `gs` of `t1` under `t2`, in order. */
  function Entries3(t1: Topic, t2: Topic, gs: seq<Topic>): seq<(string, TopicLevels)> {
    if gs == [] then []
    else
      var g := gs[|gs| - 1];
      Entries3(t1, t2, gs[..|gs| - 1]) + [(g.formattedTitle, TopicLevels(t1.formattedTitle, t2.formattedTitle, g.formattedTitle))]
  }

  /** The entries for children `cs` of a top-level topic `t1`, each followed by its own children's. */
  function Entries2(t1: Topic, cs: seq<Topic>): seq<(string, TopicLevels)> {
    if cs == [] then []
    else
      var c := cs[|cs| - 1];
      Entries2(t1, cs[..|cs| - 1]) + [(c.formattedTitle, TopicLevels(t1.formattedTitle, c.formattedTitle, ""))]
        + Entries3(t1, c, c.childTopics)
  }

  /** The entries for top-level topics `ts`, each followed by those of its first two levels of descendants. */
  function Entries(ts: seq<Topic>): seq<(string, TopicLevels)> {
    if ts == [] then []
    else
      var t := ts[|ts| - 1];
      Entries(ts[..|ts| - 1]) + [(t.formattedTitle, TopicLevels(t.formattedTitle, "", ""))]
        + Entries2(t, t.childTopics)
  }

  /** Writing entries into a map one after another, so a later entry overwrites an earlier one. */
  function Put(m: map<string, TopicLevels>, es: seq<(string, TopicLevels)>): map<string, TopicLevels> {
    if es == [] then m else Put(m, es[..|es| - 1])[es[|es| - 1].0 := es[|es| - 1].1]
  }

  lemma {:induction false} PutAppend(m: map<string, TopicLevels>, es: seq<(string, TopicLevels)>, fs: seq<(string, TopicLevels)>)
    ensures Put(m, es + fs) == Put(Put(m, es), fs)
    decreases |fs|
  {
    if fs == [] {
      assert es + fs == es;
    } else {
      var n := |fs| - 1;
      assert (es + fs)[..|es + fs| - 1] == es + fs[..n];
      assert (es + fs)[|es + fs| - 1] == fs[n];
      PutAppend(m, es, fs[..n]);
    }
  }

  /** The keys of the written map: the old ones and every key an entry mentions. */
  lemma {:induction false} PutKeys(m: map<string, TopicLevels>, es: seq<(string, TopicLevels)>, key: string)
    ensures (key in Put(m, es)) <==> key in m || exists k :: 0 <= k < |es| && es[k].0 == key
    decreases |es|
  {
    if es != [] {
      var n := |es| - 1;
      PutKeys(m, es[..n], key);
      if es[n].0 != key && exists k :: 0 <= k < |es| && es[k].0 == key {
        var k :| 0 <= k < |es| && es[k].0 == key;
        assert es[..n][k] == es[k];
      }
    }
  }

  /** Last write wins: a key is bound to the value of its last entry. */
  lemma {:induction false} PutLast(m: map<string, TopicLevels>, es: seq<(string, TopicLevels)>, k: nat)
    requires k < |es| && forall j :: k < j < |es| ==> es[j].0 != es[k].0
    ensures es[k].0 in Put(m, es) && Put(m, es)[es[k].0] == es[k].1
    decreases |es|
  {
    var n := |es| - 1;
    if k < n {
      assert forall j :: k < j < n ==> es[..n][j] == es[j];
      PutLast(m, es[..n], k);
    }
  }

  /** A key no entry mentions keeps its old binding. */
  lemma {:induction false} PutUntouched(m: map<string, TopicLevels>, es: seq<(string, TopicLevels)>, key: string)
    requires key in m && forall k :: 0 <= k < |es| ==> es[k].0 != key
    ensures key in Put(m, es) && Put(m, es)[key] == m[key]
    decreases |es|
  {
    if es != [] {
      var n := |es| - 1;
      assert forall k :: 0 <= k < n ==> es[..n][k] == es[k];
      PutUntouched(m, es[..n], key);
    }
  }

  lemma {:induction false} PutSnoc(m: map<string, TopicLevels>, es: seq<(string, TopicLevels)>, x: (string, TopicLevels))
    ensures Put(m, es + [x]) == Put(m, es)[x.0 := x.1]
  {
    assert (es + [x])[..|es|] == es;
  }

  /** The grandchild entries grow by one as the innermost loop takes one more grandchild. */
  lemma {:induction false} Entries3Step(t1: Topic, t2: Topic, k: nat)
    requires k < |t2.childTopics|
    ensures var g := t2.childTopics[k];
      Entries3(t1, t2, t2.childTopics[..k + 1]) ==
        Entries3(t1, t2, t2.childTopics[..k]) + [(g.formattedTitle, TopicLevels(t1.formattedTitle, t2.formattedTitle, g.formattedTitle))]
  {
    assert t2.childTopics[..k + 1][..k] == t2.childTopics[..k];
  }

  lemma {:induction false} Entries2Step(t1: Topic, j: nat)
    requires j < |t1.childTopics|
    ensures var c := t1.childTopics[j];
      Entries2(t1, t1.childTopics[..j + 1]) ==
        Entries2(t1, t1.childTopics[..j]) + [(c.formattedTitle, TopicLevels(t1.formattedTitle, c.formattedTitle, ""))]
          + Entries3(t1, c, c.childTopics)
  {
    assert t1.childTopics[..j + 1][..j] == t1.childTopics[..j];
  }

  lemma {:induction false} EntriesStep(ts: seq<Topic>, i: nat)
    requires i < |ts|
    ensures Entries(ts[..i + 1]) ==
      Entries(ts[..i]) + [(ts[i].formattedTitle, TopicLevels(ts[i].formattedTitle, "", ""))] + Entries2(ts[i], ts[i].childTopics)
  {
    assert ts[..i + 1][..i] == ts[..i];
  }

  /**
   * The inversion loop: every top-level topic, then each of its children, then
   * each grandchild, written into `topicLevels` in that order.
   */
  method InvertTaxonomy(topics: seq<Topic>) returns (topicLevels: map<string, TopicLevels>)
    ensures topicLevels == Put(map[], Entries(topics))
  {
    topicLevels := map[];
    var i := 0;
    while i < |topics|
      invariant 0 <= i <= |topics|
      invariant topicLevels == Put(map[], Entries(topics[..i]))
    {
      var topic := topics[i];
      ghost var one := (topic.formattedTitle, TopicLevels(topic.formattedTitle, "", ""));
      PutSnoc(map[], Entries(topics[..i]), one);
      topicLevels := topicLevels[topic.formattedTitle := TopicLevels(topic.formattedTitle, "", "")];
      ghost var top := topicLevels;
      var j := 0;
      while j < |topic.childTopics|
        invariant 0 <= j <= |topic.childTopics|
        invariant topicLevels == Put(top, Entries2(topic, topic.childTopics[..j]))
      {
        var topic2 := topic.childTopics[j];
        ghost var two := (topic2.formattedTitle, TopicLevels(topic.formattedTitle, topic2.formattedTitle, ""));
        ghost var e2 := Entries2(topic, topic.childTopics[..j]);
        PutSnoc(top, e2, two);
        topicLevels := topicLevels[topic2.formattedTitle := TopicLevels(topic.formattedTitle, topic2.formattedTitle, "")];
        ghost var second := topicLevels;
        var k := 0;
        while k < |topic2.childTopics|
          invariant 0 <= k <= |topic2.childTopics|
          invariant topicLevels == Put(second, Entries3(topic, topic2, topic2.childTopics[..k]))
        {
          var topic3 := topic2.childTopics[k];
          Entries3Step(topic, topic2, k);
          PutSnoc(second, Entries3(topic, topic2, topic2.childTopics[..k]),
            (topic3.formattedTitle, TopicLevels(topic.formattedTitle, topic2.formattedTitle, topic3.formattedTitle)));
          topicLevels := topicLevels[topic3.formattedTitle :=
            TopicLevels(topic.formattedTitle, topic2.formattedTitle, topic3.formattedTitle)];
          k := k + 1;
        }
        assert topic2.childTopics[..k] == topic2.childTopics;
        Entries2Step(topic, j);
        PutAppend(top, e2 + [two], Entries3(topic, topic2, topic2.childTopics));
        j := j + 1;
      }
      assert topic.childTopics[..j] == topic.childTopics;
      EntriesStep(topics, i);
      PutAppend(map[], Entries(topics[..i]) + [one], Entries2(topic, topic.childTopics));
      i := i + 1;
    }
    assert topics[..i] == topics;
  }

  /** Grandchild entries name the three levels, ending with the grandchild itself. */
  lemma {:induction false} Entries3Shape(t1: Topic, t2: Topic, gs: seq<Topic>, e: (string, TopicLevels))
    ensures e in Entries3(t1, t2, gs) <==>
      exists k :: 0 <= k < |gs| && e == (gs[k].formattedTitle, TopicLevels(t1.formattedTitle, t2.formattedTitle, gs[k].formattedTitle))
  {
    if gs != [] {
      var n := |gs| - 1;
      Entries3Shape(t1, t2, gs[..n], e);
      if exists k :: 0 <= k < n && e == (gs[k].formattedTitle, TopicLevels(t1.formattedTitle, t2.formattedTitle, gs[k].formattedTitle)) {
        var k :| 0 <= k < n && e == (gs[k].formattedTitle, TopicLevels(t1.formattedTitle, t2.formattedTitle, gs[k].formattedTitle));
        assert gs[..n][k] == gs[k];
      }
      if exists k :: 0 <= k < |gs[..n]| && e == (gs[..n][k].formattedTitle, TopicLevels(t1.formattedTitle, t2.formattedTitle, gs[..n][k].formattedTitle)) {
        var k :| 0 <= k < |gs[..n]| && e == (gs[..n][k].formattedTitle, TopicLevels(t1.formattedTitle, t2.formattedTitle, gs[..n][k].formattedTitle));
        assert gs[..n][k] == gs[k];
      }
    }
  }

  /** A topic-with-its-ancestors entry for a node at level two or three under `t1`. */
  predicate BelowTop(t1: Topic, cs: seq<Topic>, e: (string, TopicLevels)) {
    exists j :: 0 <= j < |cs| &&
      (e == (cs[j].formattedTitle, TopicLevels(t1.formattedTitle, cs[j].formattedTitle, "")) ||
       e in Entries3(t1, cs[j], cs[j].childTopics))
  }

  lemma {:induction false} Entries2Shape(t1: Topic, cs: seq<Topic>, e: (string, TopicLevels))
    ensures e in Entries2(t1, cs) <==> BelowTop(t1, cs, e)
  {
    if cs != [] {
      var n := |cs| - 1;
      Entries2Shape(t1, cs[..n], e);
      if BelowTop(t1, cs[..n], e) {
        var j :| 0 <= j < n &&
          (e == (cs[..n][j].formattedTitle, TopicLevels(t1.formattedTitle, cs[..n][j].formattedTitle, "")) ||
           e in Entries3(t1, cs[..n][j], cs[..n][j].childTopics));
        assert cs[..n][j] == cs[j];
      }
      if BelowTop(t1, cs, e) {
        var j :| 0 <= j < |cs| &&
          (e == (cs[j].formattedTitle, TopicLevels(t1.formattedTitle, cs[j].formattedTitle, "")) ||
           e in Entries3(t1, cs[j], cs[j].childTopics));
        if j < n {
          assert cs[..n][j] == cs[j];
        }
      }
    }
  }

  /** A top-level topic's own entry or one of its descendants'. */
  predicate UnderTop(t: Topic, e: (string, TopicLevels)) {
    e == (t.formattedTitle, TopicLevels(t.formattedTitle, "", "")) || BelowTop(t, t.childTopics, e)
  }

  /** An entry belonging to one of the top-level topics `ts`. */
  predicate InForest(ts: seq<Topic>, e: (string, TopicLevels)) {
    exists i :: 0 <= i < |ts| && UnderTop(ts[i], e)
  }

  lemma {:induction false} InForestSnoc(ts: seq<Topic>, e: (string, TopicLevels))
    requires ts != []
    ensures InForest(ts, e) <==> InForest(ts[..|ts| - 1], e) || UnderTop(ts[|ts| - 1], e)
  {
    var n := |ts| - 1;
    if InForest(ts[..n], e) {
      var i :| 0 <= i < n && UnderTop(ts[..n][i], e);
      assert ts[..n][i] == ts[i];
    }
    if InForest(ts, e) {
      var i :| 0 <= i < |ts| && UnderTop(ts[i], e);
      if i < n {
        assert ts[..n][i] == ts[i];
      }
    }
  }

  /**
   * The inversion's entries are exactly: each top-level topic with itself as
   * level 1, each child with its parent and itself, each grandchild with its
   * two ancestors and itself. Deeper nodes are never visited.
   */
  lemma {:induction false} EntriesShape(ts: seq<Topic>, e: (string, TopicLevels))
    ensures e in Entries(ts) <==> InForest(ts, e)
  {
    if ts != [] {
      var n := |ts| - 1;
      var t := ts[n];
      EntriesShape(ts[..n], e);
      Entries2Shape(t, t.childTopics, e);
      InForestSnoc(ts, e);
      assert Entries(ts) == Entries(ts[..n]) + [(t.formattedTitle, TopicLevels(t.formattedTitle, "", ""))] + Entries2(t, t.childTopics);
    }
  }

  /** Every entry records its own slug as its deepest non-empty level. */
  lemma {:induction false} EntryNamesItself(ts: seq<Topic>, e: (string, TopicLevels))
    requires e in Entries(ts)
    ensures e.0 == (if e.1.topicLevel3 != "" then e.1.topicLevel3
                    else if e.1.topicLevel2 != "" then e.1.topicLevel2
                    else e.1.topicLevel1) ||
            e.0 == ""
  {
    EntriesShape(ts, e);
    var i :| 0 <= i < |ts| && UnderTop(ts[i], e);
    if e != (ts[i].formattedTitle, TopicLevels(ts[i].formattedTitle, "", "")) {
      var cs := ts[i].childTopics;
      var j :| 0 <= j < |cs| &&
        (e == (cs[j].formattedTitle, TopicLevels(ts[i].formattedTitle, cs[j].formattedTitle, "")) ||
         e in Entries3(ts[i], cs[j], cs[j].childTopics));
      Entries3Shape(ts[i], cs[j], cs[j].childTopics, e);
    }
  }

  /** The last entry that mentions `key`. */
  function LastWith(es: seq<(string, TopicLevels)>, key: string): (k: nat)
    requires exists k :: 0 <= k < |es| && es[k].0 == key
    ensures k < |es| && es[k].0 == key && forall j :: k < j < |es| ==> es[j].0 != key
  {
    var n := |es| - 1;
    if es[n].0 == key then n
    else
      var k :| 0 <= k < |es| && es[k].0 == key;
      assert es[..n][k] == es[k];
      LastWith(es[..n], key)
  }

  /**
   * Every slug in the inverted table is bound to the last entry the traversal
   * wrote for it, and slugs never written are absent.
   */
  lemma {:induction false} InvertedTable(ts: seq<Topic>, slug: string)
    ensures slug in Put(map[], Entries(ts)) <==> exists k :: 0 <= k < |Entries(ts)| && Entries(ts)[k].0 == slug
    ensures slug in Put(map[], Entries(ts)) ==>
      var es := Entries(ts);
      var k := LastWith(es, slug);
      Put(map[], es)[slug] == es[k].1
  {
    var es := Entries(ts);
    PutKeys(map[], es, slug);
    if slug in Put(map[], es) {
      PutLast(map[], es, LastWith(es, slug));
    }
  }

  /** The search document built from one CSV row (Dataset). */
  datatype Dataset = Dataset(
    alias: string, description: string, link: string, title: string,
    topic1: string, topic2: string, topic3: string)

  /**
   * The document for one row: four columns copied through the header index,
   * and the topic's ancestors looked up in the inverted taxonomy when the
   * topic column is not empty (an unknown topic gives empty levels).
   */
  function RowToDataset(row: seq<string>, headerIndex: map<string, nat>, topicLevels: map<string, TopicLevels>): (d: Dataset)
    requires forall h :: h in ValidHeaders ==> h in headerIndex && headerIndex[h] < |row|
    ensures d.alias == row[headerIndex["alias"]] && d.description == row[headerIndex["description"]]
    ensures d.link == row[headerIndex["ons-link"]] && d.title == row[headerIndex["title"]]
    ensures var topic := row[headerIndex["topic"]];
      if topic != "" && topic in topicLevels then
        (d.topic1, d.topic2, d.topic3) == (topicLevels[topic].topicLevel1, topicLevels[topic].topicLevel2, topicLevels[topic].topicLevel3)
      else d.topic1 == "" && d.topic2 == "" && d.topic3 == ""
  {
    var doc := Dataset(row[headerIndex["alias"]], row[headerIndex["description"]],
                       row[headerIndex["ons-link"]], row[headerIndex["title"]], "", "", "");
    var topic := row[headerIndex["topic"]];
    if topic != "" then
      var levels := if topic in topicLevels then topicLevels[topic] else TopicLevels("", "", "");
      doc.(topic1 := levels.topicLevel1, topic2 := levels.topicLevel2, topic3 := levels.topicLevel3)
    else doc
  }

  /**
   * With the index `check` accepted and a row as wide as the header row, each
   * document field comes from the last column whose header names it; the topic
   * levels are those the table holds for the last "topic" column.
   */
  lemma {:induction false} CheckedRow(headerRow: seq<string>, row: seq<string>, topicLevels: map<string, TopicLevels>, h: string, j: nat)
    requires |headerRow| > 0 && FirstInvalid(headerRow).None? && Missing(headerRow) == {}
    requires |row| == |headerRow|
    requires j < |row| && headerRow[j] == h && forall i :: j < i < |row| ==> headerRow[i] != h
    ensures forall h :: h in ValidHeaders ==> h in HeaderIndex(headerRow) && HeaderIndex(headerRow)[h] < |row|
    ensures h == "alias" ==> RowToDataset(row, HeaderIndex(headerRow), topicLevels).alias == row[j]
    ensures h == "title" ==> RowToDataset(row, HeaderIndex(headerRow), topicLevels).title == row[j]
    ensures h == "ons-link" ==> RowToDataset(row, HeaderIndex(headerRow), topicLevels).link == row[j]
    ensures h == "description" ==> RowToDataset(row, HeaderIndex(headerRow), topicLevels).description == row[j]
    ensures h == "topic" ==> var d := RowToDataset(row, HeaderIndex(headerRow), topicLevels);
      if row[j] != "" && row[j] in topicLevels then
        (d.topic1, d.topic2, d.topic3) == (topicLevels[row[j]].topicLevel1, topicLevels[row[j]].topicLevel2, topicLevels[row[j]].topicLevel3)
      else d.topic1 == "" && d.topic2 == "" && d.topic3 == ""
  {
    CheckedIndex(headerRow);
    assert h in headerRow;
    assert LastIndex(headerRow, h) == j;
  }
}
