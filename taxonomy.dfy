/**
 * The topic tree (models/taxonomy.go) and the `/taxonomy/{topic}` lookup
 * (api/taxonomy.go): a pre-order, first-match search that reports the
 * matched node's title, its immediate parent's slug and its children's slugs.
 */
module Taxonomy {
  import opened Wrappers
  import opened ApiErrors
  import Datasets

  /** models.Topic: `formattedTitle` is the slug clients ask for. */
  datatype Topic = Topic(title: string, formattedTitle: string, childTopics: seq<Topic>)

  /** models.Taxonomy. */
  datatype Taxonomy = Taxonomy(topics: seq<Topic>)

  /** The `Topic` record the lookup returns (api/taxonomy.go). */
  datatype TopicDetail = TopicDetail(parentTopic: string, title: string, topic: string, childTopics: seq<string>)

  /** The slugs of a list of topics, in order. */
  function Slugs(ts: seq<Topic>): (r: seq<string>)
    ensures |r| == |ts|
    ensures forall k :: 0 <= k < |ts| ==> r[k] == ts[k].formattedTitle
  {
    if ts == [] then [] else Slugs(ts[..|ts| - 1]) + [ts[|ts| - 1].formattedTitle]
  }

  /** The inner loop of both lookups: the children's slugs, appended one by one. */
  method CollectChildSlugs(t: Topic) returns (childTopics: seq<string>)
    ensures childTopics == Slugs(t.childTopics)
  {
    childTopics := [];
    var i := 0;
    while i < |t.childTopics|
      invariant 0 <= i <= |t.childTopics|
      invariant childTopics == Slugs(t.childTopics[..i])
    {
      assert t.childTopics[..i + 1][..i] == t.childTopics[..i];
      childTopics := childTopics + [t.childTopics[i].formattedTitle];
      i := i + 1;
    }
    assert t.childTopics[..i] == t.childTopics;
  }

  /** `node` is `t` itself or lies somewhere below it. */
  predicate Within(t: Topic, node: Topic)
    decreases t
  {
    t == node || exists k :: 0 <= k < |t.childTopics| && Within(t.childTopics[k], node)
  }

  /** A parent-child edge of the tree, as the search meets it. */
  datatype Edge = Edge(parent: Topic, node: Topic)

  /**
   * The edges below the children `i..` of `t`, in the order the search visits
   * them: a child's own edge, then everything under that child, then the next
   * sibling.
   */
  function EdgesFrom(t: Topic, i: nat): seq<Edge>
    decreases t, |t.childTopics| - i
  {
    if i >= |t.childTopics| then []
    else
      var c := t.childTopics[i];
      [Edge(t, c)] + EdgesFrom(c, 0) + EdgesFrom(t, i + 1)
  }

  /** Every edge below `t`, in pre-order. */
  function Edges(t: Topic): seq<Edge> {
    EdgesFrom(t, 0)
  }

  /** The first edge whose child carries `slug`. */
  function Find(es: seq<Edge>, slug: string): (r: Option<Edge>)
    ensures r.None? <==> forall k :: 0 <= k < |es| ==> es[k].node.formattedTitle != slug
    ensures r.Some? ==> r.value in es && r.value.node.formattedTitle == slug
  {
    if es == [] then None
    else if es[0].node.formattedTitle == slug then Some(es[0])
    else Find(es[1..], slug)
  }

  /** What is reported for a matched edge. */
  function Describe(e: Edge, slug: string): TopicDetail {
    TopicDetail(e.parent.formattedTitle, e.node.title, slug, Slugs(e.node.childTopics))
  }

  /** The reference lookup: describe the first edge, in pre-order, whose child has the slug. */
  function LookupFrom(t: Topic, i: nat, slug: string): Option<TopicDetail> {
    match Find(EdgesFrom(t, i), slug)
    case None => None
    case Some(e) => Some(Describe(e, slug))
  }

  function Lookup(t: Topic, slug: string): Option<TopicDetail> {
    LookupFrom(t, 0, slug)
  }

  /** The found edge is the first that matches: every earlier edge carries another slug. */
  lemma {:induction false} FindIsFirst(es: seq<Edge>, slug: string)
    requires Find(es, slug).Some?
    ensures exists k :: 0 <= k < |es| && es[k] == Find(es, slug).value &&
                        (forall j :: 0 <= j < k ==> es[j].node.formattedTitle != slug)
  {
    if es[0].node.formattedTitle != slug {
      FindIsFirst(es[1..], slug);
      var k :| 0 <= k < |es[1..]| && es[1..][k] == Find(es[1..], slug).value &&
               (forall j :: 0 <= j < k ==> es[1..][j].node.formattedTitle != slug);
      assert es[k + 1] == Find(es, slug).value;
      forall j | 0 <= j < k + 1
        ensures es[j].node.formattedTitle != slug
      {
        if j > 0 {
          assert es[j] == es[1..][j - 1];
        }
      }
    }
  }

  /** Searching a concatenation: the first part's match if it has one, else the second's. */
  lemma {:induction false} FindAppend(a: seq<Edge>, b: seq<Edge>, slug: string)
    ensures Find(a + b, slug) == if Find(a, slug).Some? then Find(a, slug) else Find(b, slug)
  {
    if a == [] {
      assert a + b == b;
    } else {
      assert (a + b)[0] == a[0];
      assert (a + b)[1..] == a[1..] + b;
      FindAppend(a[1..], b, slug);
    }
  }

  /**
   * One step of the search over the children of `t`: child `i` itself, then
   * its subtree, then the siblings after it.
   */
  lemma {:induction false} LookupStep(t: Topic, i: nat, slug: string)
    requires i < |t.childTopics|
    ensures var c := t.childTopics[i];
      LookupFrom(t, i, slug) ==
        if c.formattedTitle == slug then Some(TopicDetail(t.formattedTitle, c.title, slug, Slugs(c.childTopics)))
        else if Lookup(c, slug).Some? then Lookup(c, slug)
        else LookupFrom(t, i + 1, slug)
  {
    var c := t.childTopics[i];
    var rest := EdgesFrom(c, 0) + EdgesFrom(t, i + 1);
    assert EdgesFrom(t, i) == [Edge(t, c)] + rest;
    assert ([Edge(t, c)] + rest)[0] == Edge(t, c);
    assert ([Edge(t, c)] + rest)[1..] == rest;
    FindAppend(EdgesFrom(c, 0), EdgesFrom(t, i + 1), slug);
  }

  /** Past the last child there is nothing left to find. */
  lemma {:induction false} LookupEnd(t: Topic, slug: string)
    ensures LookupFrom(t, |t.childTopics|, slug) == None
  {
  }

  /**
   * checkChildTopics: the loop over the children of `taxonomy`, each one
   * compared before recursing into it; the first hit ends the loop.
   */
  method CheckChildTopics(taxonomy: Topic, topic: string) returns (result: Option<TopicDetail>, hasValidTopic: bool)
    ensures hasValidTopic <==> result.Some?
    ensures result == Lookup(taxonomy, topic)
    decreases taxonomy
  {
    result, hasValidTopic := None, false;
    var i := 0;
    while i < |taxonomy.childTopics|
      invariant 0 <= i <= |taxonomy.childTopics|
      invariant result == None && !hasValidTopic
      invariant Lookup(taxonomy, topic) == LookupFrom(taxonomy, i, topic)
    {
      var childTopic := taxonomy.childTopics[i];
      LookupStep(taxonomy, i, topic);
      if topic == childTopic.formattedTitle {
        hasValidTopic := true;
        var childTopics := CollectChildSlugs(childTopic);
        result := Some(TopicDetail(taxonomy.formattedTitle, childTopic.title, topic, childTopics));
        break;
      }
      result, hasValidTopic := CheckChildTopics(childTopic, topic);
      if hasValidTopic {
        break;
      }
      i := i + 1;
    }
    if !hasValidTopic {
      LookupEnd(taxonomy, topic);
    }
  }

  /** The top level of the taxonomy seen as the children of a nameless root. */
  function Root(tx: Taxonomy): Topic {
    Topic("", "", tx.topics)
  }

  /**
   * getTopic: the same search over the top-level topics, where a hit has no
   * parent; a miss is ErrTopicNotFound, written out by setErrorCode.
   */
  method GetTopic(tx: Taxonomy, topic: string) returns (r: Result<TopicDetail, Datasets.Response>)
    ensures Lookup(Root(tx), topic).Some? ==> r == Ok(Lookup(Root(tx), topic).value)
    ensures Lookup(Root(tx), topic).None? ==> r == Err(Datasets.SetErrorCode(Sentinel(TopicNotFound)))
  {
    var root := Root(tx);
    var result: Option<TopicDetail> := None;
    var hasValidTopic := false;
    var i := 0;
    while i < |tx.topics|
      invariant 0 <= i <= |tx.topics|
      invariant result == None && !hasValidTopic
      invariant Lookup(root, topic) == LookupFrom(root, i, topic)
    {
      var taxonomy := tx.topics[i];
      LookupStep(root, i, topic);
      if topic == taxonomy.formattedTitle {
        hasValidTopic := true;
        var childTopics := CollectChildSlugs(taxonomy);
        result := Some(TopicDetail("", taxonomy.title, topic, childTopics));
        break;
      }
      result, hasValidTopic := CheckChildTopics(taxonomy, topic);
      if hasValidTopic {
        break;
      }
      i := i + 1;
    }
    if !hasValidTopic {
      LookupEnd(root, topic);
      return Err(Datasets.SetErrorCode(Sentinel(TopicNotFound)));
    }
    return Ok(result.value);
  }

  /** The edges from child `i` on are exactly the parent-child pairs under children `i..`. */
  lemma {:induction false} EdgesFromExactly(t: Topic, i: nat, p: Topic, n: Topic)
    ensures Edge(p, n) in EdgesFrom(t, i) <==>
      exists k :: i <= k < |t.childTopics| &&
        ((p == t && n == t.childTopics[k]) || (Within(t.childTopics[k], p) && n in p.childTopics))
    decreases t, |t.childTopics| - i
  {
    if i < |t.childTopics| {
      var c := t.childTopics[i];
      EdgesFromExactly(c, 0, p, n);
      EdgesFromExactly(t, i + 1, p, n);
      assert EdgesFrom(t, i) == [Edge(t, c)] + EdgesFrom(c, 0) + EdgesFrom(t, i + 1);
      WithinChildren(c, p, n);
      if Edge(p, n) in EdgesFrom(t, i) {
        assert i <= i < |t.childTopics|;
      }
    }
  }

  /** A node lies within `c` exactly when it is `c` or lies within one of its children. */
  lemma {:induction false} WithinChildren(c: Topic, p: Topic, n: Topic)
    ensures (Within(c, p) && n in p.childTopics) <==>
      ((p == c && n in c.childTopics) ||
       exists k :: 0 <= k < |c.childTopics| && Within(c.childTopics[k], p) && n in p.childTopics)
  {
  }

  /** The search meets every parent-child pair of the tree, and nothing else. */
  lemma {:induction false} EdgesExactly(t: Topic, p: Topic, n: Topic)
    ensures Edge(p, n) in Edges(t) <==> Within(t, p) && n in p.childTopics
  {
    EdgesFromExactly(t, 0, p, n);
    WithinChildren(t, p, n);
    if p == t && n in t.childTopics {
      var k :| 0 <= k < |t.childTopics| && t.childTopics[k] == n;
      assert 0 <= k < |t.childTopics| && p == t && n == t.childTopics[k];
    }
  }

  /**
   * Soundness and completeness: the lookup fails exactly when no node below
   * `t` has the slug; when it succeeds it describes such a node, with its
   * title, its immediate parent's slug and its own children's slugs.
   */
  lemma {:induction false} LookupCorrect(t: Topic, slug: string)
    ensures Lookup(t, slug).None? <==>
      forall p, n :: Within(t, p) && n in p.childTopics ==> n.formattedTitle != slug
    ensures Lookup(t, slug).Some? ==>
      exists p, n :: Within(t, p) && n in p.childTopics && n.formattedTitle == slug &&
        Lookup(t, slug).value == TopicDetail(p.formattedTitle, n.title, slug, Slugs(n.childTopics))
  {
    var es := Edges(t);
    var r := Find(es, slug);
    if r.Some? {
      EdgesExactly(t, r.value.parent, r.value.node);
    } else {
      forall p, n | Within(t, p) && n in p.childTopics
        ensures n.formattedTitle != slug
      {
        EdgesExactly(t, p, n);
        var k :| 0 <= k < |es| && es[k] == Edge(p, n);
      }
    }
  }

  /** The reported topic is always the requested slug, and the child slugs follow the matched node's children. */
  lemma {:induction false} LookupReportsRequest(t: Topic, slug: string)
    requires Lookup(t, slug).Some?
    ensures Lookup(t, slug).value.topic == slug
    ensures var e := Find(Edges(t), slug).value;
      e.node.formattedTitle == slug &&
      |Lookup(t, slug).value.childTopics| == |e.node.childTopics| &&
      (e.node.childTopics == [] ==> Lookup(t, slug).value.childTopics == [])
  {
  }

  /**
   * Pre-order, first match: if no earlier sibling's subtree has the slug and
   * child `i` has it, child `i` is reported with `t` as its parent, whatever
   * lies below child `i`.
   */
  lemma {:induction false} NodeBeforeDescendants(t: Topic, i: nat, slug: string)
    requires i < |t.childTopics| && t.childTopics[i].formattedTitle == slug
    requires forall j :: 0 <= j < i ==> t.childTopics[j].formattedTitle != slug && Lookup(t.childTopics[j], slug).None?
    ensures Lookup(t, slug) ==
      Some(TopicDetail(t.formattedTitle, t.childTopics[i].title, slug, Slugs(t.childTopics[i].childTopics)))
  {
    SkipSiblings(t, i, slug);
    LookupStep(t, i, slug);
  }

  /**
   * Pre-order, first match: if no earlier sibling's subtree has the slug and
   * child `i` does not carry it, the result is whatever the search below child `i` finds.
   */
  lemma {:induction false} DescendantsBeforeSiblings(t: Topic, i: nat, slug: string)
    requires i < |t.childTopics| && t.childTopics[i].formattedTitle != slug
    requires Lookup(t.childTopics[i], slug).Some?
    requires forall j :: 0 <= j < i ==> t.childTopics[j].formattedTitle != slug && Lookup(t.childTopics[j], slug).None?
    ensures Lookup(t, slug) == Lookup(t.childTopics[i], slug)
  {
    SkipSiblings(t, i, slug);
    LookupStep(t, i, slug);
  }

  /** Siblings with nothing to find are skipped. */
  lemma {:induction false} SkipSiblings(t: Topic, i: nat, slug: string)
    requires i <= |t.childTopics|
    requires forall j :: 0 <= j < i ==> t.childTopics[j].formattedTitle != slug && Lookup(t.childTopics[j], slug).None?
    ensures Lookup(t, slug) == LookupFrom(t, i, slug)
  {
    if i > 0 {
      SkipSiblings(t, i - 1, slug);
      LookupStep(t, i - 1, slug);
    }
  }

  /** A top-level hit has no parent: getTopic leaves `ParentTopic` empty. */
  lemma {:induction false} TopLevelHasNoParent(tx: Taxonomy, i: nat, slug: string)
    requires i < |tx.topics| && tx.topics[i].formattedTitle == slug
    requires forall j :: 0 <= j < i ==> tx.topics[j].formattedTitle != slug && Lookup(tx.topics[j], slug).None?
    ensures Lookup(Root(tx), slug) == Some(TopicDetail("", tx.topics[i].title, slug, Slugs(tx.topics[i].childTopics)))
  {
    NodeBeforeDescendants(Root(tx), i, slug);
  }

  /** A topic that is nowhere in the tree is a 404 with ErrTopicNotFound's message. */
  lemma {:induction false} MissingTopicIs404(tx: Taxonomy, slug: string)
    requires forall p, n :: Within(Root(tx), p) && n in p.childTopics ==> n.formattedTitle != slug
    ensures Lookup(Root(tx), slug).None?
    ensures Datasets.SetErrorCode(Sentinel(TopicNotFound)) == Datasets.Response(404, "Topic not found")
  {
    LookupCorrect(Root(tx), slug);
  }
}
