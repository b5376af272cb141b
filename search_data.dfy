/**
 * Similarity search grouped by tag pair (src/application/use-cases/search-data.use-case.ts).
 * Hits are grouped under the string key `projectId + ":" + contentId`, in first-seen order.
 */
module SearchData {
  import opened Wrappers
  import opened Domain
  import opened DocumentStore
  import opened Grouping

  /** One group of search hits: the texts found under one key. */
  datatype SearchResult = SearchResult(projectId: string, contentId: string, data: seq<string>)

  /** The grouping key the use case builds for a hit. */
  function GroupKey(d: Document): string
  {
    d.projectId + ":" + d.contentId
  }

  function Content(d: Document): string
  {
    d.content
  }

  /** The flat pair of a hit, for comparing against the string key. */
  function Pair(d: Document): (string, string)
  {
    (d.projectId, d.contentId)
  }

  function TextCount(g: SearchResult): nat
  {
    |g.data|
  }

  /** The group for key `k`: tags of the first hit with that key, texts of all of them. */
  function GroupOf(docs: seq<Document>, k: string): SearchResult
    requires k in FirstSeen(docs, GroupKey)
  {
    var first := docs[FirstIndex(docs, GroupKey, k)];
    SearchResult(first.projectId, first.contentId, Collect(docs, GroupKey, Content, k))
  }

  /** Reference definition of the grouping: one group per distinct key, in first-seen order. */
  function Grouped(docs: seq<Document>): seq<SearchResult>
  {
    var ks := FirstSeen(docs, GroupKey);
    seq(|ks|, j requires 0 <= j < |ks| => GroupOf(docs, ks[j]))
  }

  /** How the group of key `k` changes when one more hit is folded in. */
  lemma GroupOfSnoc(docs: seq<Document>, d: Document, k: string)
    requires k in FirstSeen(docs + [d], GroupKey)
    ensures k in FirstSeen(docs, GroupKey) && GroupKey(d) == k ==>
      GroupOf(docs + [d], k) == GroupOf(docs, k).(data := GroupOf(docs, k).data + [d.content])
    ensures k in FirstSeen(docs, GroupKey) && GroupKey(d) != k ==> GroupOf(docs + [d], k) == GroupOf(docs, k)
    ensures k !in FirstSeen(docs, GroupKey) ==> GroupOf(docs + [d], k) == SearchResult(d.projectId, d.contentId, [d.content])
  {
    FirstIndexSnoc(docs, GroupKey, d, k);
    CollectSnoc(docs, GroupKey, Content, d, k);
    var i := FirstIndex(docs + [d], GroupKey, k);
    if k in FirstSeen(docs, GroupKey) {
      assert (docs + [d])[i] == docs[i];
    } else {
      CollectUnseen(docs, GroupKey, Content, k);
    }
  }

  /**
   * Embeds `[search]`, fails when the provider returns no vector, searches the store with the
   * first vector, the filters and the limit (default 5), then groups the hits. A failure
   * issues no repository call.
   */
  method SearchData(store: DocumentStore, embed: Embedder, search: string, projectId: Option<string>, contentId: Option<string>, limit: Option<nat>)
    returns (result: Result<seq<SearchResult>, Error>)
    modifies store
    ensures embed([search]).Failure? ==> result == Failure(embed([search]).error) && unchanged(store)
    ensures embed([search]).Success? && embed([search]).value == [] ==>
      result == Failure(EmptyEmbeddingResult) && unchanged(store)
    ensures embed([search]).Success? && embed([search]).value != [] ==>
      var queryEmbedding := embed([search]).value[0];
      && store.rows == old(store.rows)
      && store.calls == old(store.calls) + [SearchCall(queryEmbedding, projectId, contentId, Some(LimitOrDefault(limit)))]
      && result == Success(Grouped(SearchHits(old(store.rows), projectId, contentId, Some(LimitOrDefault(limit)))))
  {
    var embedded := embed([search]);
    if embedded.Failure? {
      return Failure(embedded.error);
    }
    if |embedded.value| == 0 {
      return Failure(EmptyEmbeddingResult);
    }
    var queryEmbedding := embedded.value[0];
    var documents := store.Search(queryEmbedding, projectId, contentId, Some(LimitOrDefault(limit)));
    var groups := GroupByKey(documents);
    result := Success(groups);
  }

  /**
   * The grouping loop: folds the hits into an insertion-ordered map from key to group and
   * returns the map's values in insertion order.
   */
  method GroupByKey(documents: seq<Document>) returns (groups: seq<SearchResult>)
    ensures groups == Grouped(documents)
  {
    // `keys` lists the keys of `groupedResults` in insertion order.
    var groupedResults: map<string, SearchResult> := map[];
    var keys: seq<string> := [];
    for i := 0 to |documents|
      invariant keys == FirstSeen(documents[..i], GroupKey)
      invariant forall k :: k in groupedResults <==> k in keys
      invariant forall k :: k in groupedResults ==> groupedResults[k] == GroupOf(documents[..i], k)
    {
      var doc := documents[i];
      var key := doc.projectId + ":" + doc.contentId;
      assert documents[..i + 1] == documents[..i] + [doc];
      FirstSeenSnoc(documents[..i], GroupKey, doc);
      if key !in groupedResults {
        groupedResults := groupedResults[key := SearchResult(doc.projectId, doc.contentId, [])];
        keys := keys + [key];
      }
      groupedResults := groupedResults[key := groupedResults[key].(data := groupedResults[key].data + [doc.content])];
      forall k | k in groupedResults
        ensures groupedResults[k] == GroupOf(documents[..i + 1], k)
      {
        GroupOfSnoc(documents[..i], doc, k);
      }
    }
    assert documents[..|documents|] == documents;
    groups := seq(|keys|, j requires 0 <= j < |keys| => groupedResults[keys[j]]);
  }

  // ---- properties of the grouping ----

  /** Every key of the hits has exactly one group, and groups follow the keys' first appearance. */
  lemma GroupedKeys(docs: seq<Document>)
    ensures |Grouped(docs)| == |FirstSeen(docs, GroupKey)|
    ensures forall d :: d in docs ==> exists j :: 0 <= j < |Grouped(docs)| && FirstSeen(docs, GroupKey)[j] == GroupKey(d)
    ensures forall a, b :: 0 <= a < b < |Grouped(docs)| ==>
      FirstSeen(docs, GroupKey)[a] != FirstSeen(docs, GroupKey)[b]
      && FirstIndex(docs, GroupKey, FirstSeen(docs, GroupKey)[a]) < FirstIndex(docs, GroupKey, FirstSeen(docs, GroupKey)[b])
  {
    FirstSeenMembers(docs, GroupKey);
    FirstSeenDistinct(docs, GroupKey);
    FirstSeenOrder(docs, GroupKey);
    forall d | d in docs
      ensures exists j :: 0 <= j < |Grouped(docs)| && FirstSeen(docs, GroupKey)[j] == GroupKey(d)
    {
      var i :| 0 <= i < |docs| && docs[i] == d;
      var j :| 0 <= j < |FirstSeen(docs, GroupKey)| && FirstSeen(docs, GroupKey)[j] == GroupKey(docs[i]);
    }
  }

  /** A group is labelled by the first hit with its key and holds that key's texts in the repository's order. */
  lemma GroupedTexts(docs: seq<Document>, j: nat)
    requires j < |Grouped(docs)|
    ensures var k := FirstSeen(docs, GroupKey)[j];
      var first := docs[FirstIndex(docs, GroupKey, k)];
      && GroupKey(first) == k
      && Grouped(docs)[j].projectId == first.projectId
      && Grouped(docs)[j].contentId == first.contentId
      && Grouped(docs)[j].data == Collect(docs, GroupKey, Content, k)
  {
  }

  /** Grouping loses no hit and duplicates none: the groups hold as many texts as there were hits. */
  lemma GroupedTextCount(docs: seq<Document>)
    ensures SumOf(Grouped(docs), TextCount) == |docs|
  {
    var ks := FirstSeen(docs, GroupKey);
    SumOfMatches(Grouped(docs), TextCount, ks, docs, GroupKey, Content);
    GroupSizesSum(docs, GroupKey, Content);
  }

  /** No project id of the hits contains the separator. */
  predicate NoSeparatorInProjects(docs: seq<Document>)
  {
    forall d :: d in docs ==> ':' !in d.projectId
  }

  /** Without a separator in the project id, the string key determines the pair. */
  lemma KeyDeterminesPair(p1: string, c1: string, p2: string, c2: string)
    requires ':' !in p1 && ':' !in p2
    requires p1 + ":" + c1 == p2 + ":" + c2
    ensures p1 == p2 && c1 == c2
  {
    var s := p1 + ":" + c1;
    assert s == p2 + ":" + c2;
    assert s[|p1|] == ':' && s[|p2|] == ':';
    assert forall i :: 0 <= i < |p1| ==> s[i] == p1[i];
    assert forall i :: 0 <= i < |p2| ==> s[i] == p2[i];
    assert |p1| == |p2|;
    assert p1 == s[..|p1|] == p2;
    assert c1 == s[|p1| + 1..] == c2;
  }

  /**
   * When no project id contains ':', there is one group per distinct pair: every hit's pair
   * labels a group, and a group holds exactly the texts of the hits with its pair.
   */
  lemma OneGroupPerPair(docs: seq<Document>)
    requires NoSeparatorInProjects(docs)
    ensures forall d :: d in docs ==>
      exists j :: 0 <= j < |Grouped(docs)| && Grouped(docs)[j].projectId == d.projectId && Grouped(docs)[j].contentId == d.contentId
    ensures forall j :: 0 <= j < |Grouped(docs)| ==>
      Grouped(docs)[j].data == Collect(docs, Pair, Content, (Grouped(docs)[j].projectId, Grouped(docs)[j].contentId))
    ensures forall a, b :: 0 <= a < b < |Grouped(docs)| ==>
      (Grouped(docs)[a].projectId, Grouped(docs)[a].contentId) != (Grouped(docs)[b].projectId, Grouped(docs)[b].contentId)
  {
    var gs := Grouped(docs);
    var ks := FirstSeen(docs, GroupKey);
    GroupedKeys(docs);
    forall j | 0 <= j < |gs|
      ensures GroupKey(docs[FirstIndex(docs, GroupKey, ks[j])]) == ks[j]
      ensures gs[j].data == Collect(docs, Pair, Content, (gs[j].projectId, gs[j].contentId))
    {
      var first := docs[FirstIndex(docs, GroupKey, ks[j])];
      forall i | 0 <= i < |docs|
        ensures GroupKey(docs[i]) == ks[j] <==> Pair(docs[i]) == Pair(first)
      {
        if GroupKey(docs[i]) == ks[j] {
          KeyDeterminesPair(docs[i].projectId, docs[i].contentId, first.projectId, first.contentId);
        }
      }
      CollectSameSelection(docs, GroupKey, ks[j], Pair, Pair(first), Content);
    }
    forall d | d in docs
      ensures exists j :: 0 <= j < |gs| && gs[j].projectId == d.projectId && gs[j].contentId == d.contentId
    {
      var j :| 0 <= j < |gs| && ks[j] == GroupKey(d);
      var first := docs[FirstIndex(docs, GroupKey, ks[j])];
      KeyDeterminesPair(d.projectId, d.contentId, first.projectId, first.contentId);
    }
  }

  /** With ':' inside a tag, two different pairs share a key and are merged into one group. */
  lemma KeyCollision()
    ensures var docs := [Document("id1", "a:b", "c", "t1", []), Document("id2", "a", "b:c", "t2", [])];
      Grouped(docs) == [SearchResult("a:b", "c", ["t1", "t2"])]
  {
    var d1 := Document("id1", "a:b", "c", "t1", []);
    var d2 := Document("id2", "a", "b:c", "t2", []);
    var k := "a:b:c";
    CollisionKeys(d1, d2, k);
    GroupOfSnoc([], d1, k);
    GroupOfSnoc([d1], d2, k);
    var docs := [d1, d2];
    assert GroupOf(docs, k) == SearchResult("a:b", "c", ["t1", "t2"]);
    assert Grouped(docs) == [GroupOf(docs, k)];
  }

  lemma CollisionKeys(d1: Document, d2: Document, k: string)
    requires GroupKey(d1) == k && GroupKey(d2) == k
    ensures [] + [d1] == [d1] && [d1] + [d2] == [d1, d2]
    ensures FirstSeen([d1], GroupKey) == [k] && FirstSeen([d1, d2], GroupKey) == [k]
  {
    assert [] + [d1] == [d1];
    assert [d1] + [d2] == [d1, d2];
    FirstSeenSnoc([], GroupKey, d1);
    FirstSeenSnoc([d1], GroupKey, d2);
  }

  /** The unit test's scenario: three hits over two pairs give two groups of two and one texts. */
  lemma SearchTestScenario()
    ensures var docs := [Document("id1", "proj1", "content1", "text1", []),
                         Document("id2", "proj1", "content1", "text2", []),
                         Document("id3", "proj2", "content2", "text3", [])];
      Grouped(docs) == [SearchResult("proj1", "content1", ["text1", "text2"]), SearchResult("proj2", "content2", ["text3"])]
  {
    var d1 := Document("id1", "proj1", "content1", "text1", []);
    var d2 := Document("id2", "proj1", "content1", "text2", []);
    var d3 := Document("id3", "proj2", "content2", "text3", []);
    var k1, k2 := "proj1:content1", "proj2:content2";
    ScenarioKeys(d1, d2, d3, k1, k2);
    GroupOfSnoc([], d1, k1);
    GroupOfSnoc([d1], d2, k1);
    GroupOfSnoc([d1, d2], d3, k1);
    GroupOfSnoc([d1, d2], d3, k2);
    var docs := [d1, d2, d3];
    assert GroupOf(docs, k1) == SearchResult("proj1", "content1", ["text1", "text2"]);
    assert GroupOf(docs, k2) == SearchResult("proj2", "content2", ["text3"]);
    assert Grouped(docs) == [GroupOf(docs, k1), GroupOf(docs, k2)];
  }

  lemma ScenarioKeys(d1: Document, d2: Document, d3: Document, k1: string, k2: string)
    requires GroupKey(d1) == k1 && GroupKey(d2) == k1 && GroupKey(d3) == k2 && k1 != k2
    ensures [] + [d1] == [d1] && [d1] + [d2] == [d1, d2] && [d1, d2] + [d3] == [d1, d2, d3]
    ensures FirstSeen([d1], GroupKey) == [k1] && FirstSeen([d1, d2], GroupKey) == [k1]
    ensures FirstSeen([d1, d2, d3], GroupKey) == [k1, k2]
  {
    assert [] + [d1] == [d1];
    assert [d1] + [d2] == [d1, d2];
    assert [d1, d2] + [d3] == [d1, d2, d3];
    FirstSeenSnoc([], GroupKey, d1);
    assert FirstSeen([d1], GroupKey) == [k1];
    FirstSeenSnoc([d1], GroupKey, d2);
    assert FirstSeen([d1, d2], GroupKey) == [k1];
    FirstSeenSnoc([d1, d2], GroupKey, d3);
    assert k2 !in [k1];
  }
}
