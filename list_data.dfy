/**
 * Paginated listing folded into per-project views (src/application/use-cases/list-data.use-case.ts).
 * The repository's `listGrouped` has no implementation in the repository class, so it enters
 * the model as a parameter: whatever rows it returns for the given page, limit and filters.
 */
module ListData {
  import opened Wrappers
  import opened Grouping

  /** A grouped-count row: `count` documents stored under one tag pair. */
  datatype GroupedStat = GroupedStat(projectId: string, contentId: string, count: nat)

  datatype ContentStats = ContentStats(contentId: string, items: nat)

  datatype ProjectStats = ProjectStats(projectId: string, contents: seq<ContentStats>)

  /** The repository capability `listGrouped(page, limit, projectId?, contentId?)`. */
  type ListGrouped = (nat, nat, Option<string>, Option<string>) -> seq<GroupedStat>

  function ProjectOf(row: GroupedStat): string
  {
    row.projectId
  }

  function ToContentStats(row: GroupedStat): ContentStats
  {
    ContentStats(row.contentId, row.count)
  }

  function ContentCount(p: ProjectStats): nat
  {
    |p.contents|
  }

  /** Reference definition of the fold: one view per project, in first-seen order, its rows in order. */
  function Listing(rows: seq<GroupedStat>): seq<ProjectStats>
  {
    var ps := FirstSeen(rows, ProjectOf);
    seq(|ps|, j requires 0 <= j < |ps| => ProjectStats(ps[j], Collect(rows, ProjectOf, ToContentStats, ps[j])))
  }

  /** Fetches one page of grouped counts and folds it into per-project views. */
  method ListData(listGrouped: ListGrouped, page: nat, limit: nat, projectId: Option<string>, contentId: Option<string>)
    returns (result: seq<ProjectStats>)
    ensures result == Listing(listGrouped(page, limit, projectId, contentId))
  {
    var groupedData := listGrouped(page, limit, projectId, contentId);

    // `order` lists the keys of `projectMap` in insertion order.
    var projectMap: map<string, ProjectStats> := map[];
    var order: seq<string> := [];
    for i := 0 to |groupedData|
      invariant order == FirstSeen(groupedData[..i], ProjectOf)
      invariant forall p :: p in projectMap <==> p in order
      invariant forall p :: p in projectMap ==>
        projectMap[p] == ProjectStats(p, Collect(groupedData[..i], ProjectOf, ToContentStats, p))
    {
      var item := groupedData[i];
      assert groupedData[..i + 1] == groupedData[..i] + [item];
      FirstSeenSnoc(groupedData[..i], ProjectOf, item);
      if item.projectId !in projectMap {
        CollectUnseen(groupedData[..i], ProjectOf, ToContentStats, item.projectId);
        projectMap := projectMap[item.projectId := ProjectStats(item.projectId, [])];
        order := order + [item.projectId];
      }
      var entry := projectMap[item.projectId];
      projectMap := projectMap[item.projectId := entry.(contents := entry.contents + [ContentStats(item.contentId, item.count)])];
      forall p | p in projectMap
        ensures projectMap[p] == ProjectStats(p, Collect(groupedData[..i + 1], ProjectOf, ToContentStats, p))
      {
        CollectSnoc(groupedData[..i], ProjectOf, ToContentStats, item, p);
      }
    }
    assert groupedData[..|groupedData|] == groupedData;
    result := seq(|order|, j requires 0 <= j < |order| => projectMap[order[j]]);
  }

  // ---- properties of the fold ----

  /** The views are labelled by the first-seen project ids, one to one. */
  lemma ListingLabels(rows: seq<GroupedStat>)
    ensures |Listing(rows)| == |FirstSeen(rows, ProjectOf)|
    ensures forall j :: 0 <= j < |Listing(rows)| ==> Listing(rows)[j].projectId == FirstSeen(rows, ProjectOf)[j]
  {
  }

  /** Every project of the page has a view, and every view belongs to a project of the page. */
  lemma ListingCoversProjects(rows: seq<GroupedStat>)
    ensures forall i :: 0 <= i < |rows| ==> exists j :: 0 <= j < |Listing(rows)| && Listing(rows)[j].projectId == rows[i].projectId
    ensures forall j :: 0 <= j < |Listing(rows)| ==> exists i :: 0 <= i < |rows| && rows[i].projectId == Listing(rows)[j].projectId
  {
    var ps := FirstSeen(rows, ProjectOf);
    ListingLabels(rows);
    FirstSeenMembers(rows, ProjectOf);
    forall i | 0 <= i < |rows|
      ensures exists j :: 0 <= j < |Listing(rows)| && Listing(rows)[j].projectId == rows[i].projectId
    {
      assert ProjectOf(rows[i]) in ps;
      var j :| 0 <= j < |ps| && ps[j] == ProjectOf(rows[i]);
      assert Listing(rows)[j].projectId == rows[i].projectId;
    }
    forall j | 0 <= j < |Listing(rows)|
      ensures exists i :: 0 <= i < |rows| && rows[i].projectId == Listing(rows)[j].projectId
    {
      assert ps[j] in ps;
      var i :| 0 <= i < |rows| && ProjectOf(rows[i]) == ps[j];
    }
  }

  /** No project gets two views, and the views follow the order in which projects first occur. */
  lemma ListingProjectOrder(rows: seq<GroupedStat>)
    ensures forall a, b :: 0 <= a < b < |Listing(rows)| ==>
      && Listing(rows)[a].projectId != Listing(rows)[b].projectId
      && FirstIndex(rows, ProjectOf, Listing(rows)[a].projectId) < FirstIndex(rows, ProjectOf, Listing(rows)[b].projectId)
  {
    ListingLabels(rows);
    FirstSeenDistinct(rows, ProjectOf);
    FirstSeenOrder(rows, ProjectOf);
  }

  /** A project's view lists exactly that project's rows, in input order, as `{contentId, items}`. */
  lemma ListingContents(rows: seq<GroupedStat>, j: nat)
    requires j < |Listing(rows)|
    ensures Listing(rows)[j].contents == Collect(rows, ProjectOf, ToContentStats, Listing(rows)[j].projectId)
  {
  }

  /** Nothing is dropped or merged: the views hold one content entry per input row. */
  lemma ListingEntryCount(rows: seq<GroupedStat>)
    ensures SumOf(Listing(rows), ContentCount) == |rows|
  {
    SumOfMatches(Listing(rows), ContentCount, FirstSeen(rows, ProjectOf), rows, ProjectOf, ToContentStats);
    GroupSizesSum(rows, ProjectOf, ToContentStats);
  }

  /** An empty page gives an empty listing. */
  lemma ListingEmpty()
    ensures Listing([]) == []
  {
  }

  /** The unit test's scenario: three rows over two projects give two views of two and one entries. */
  lemma ListTestScenario()
    ensures Listing([GroupedStat("proj1", "c1", 10), GroupedStat("proj1", "c2", 5), GroupedStat("proj2", "c3", 8)])
         == [ProjectStats("proj1", [ContentStats("c1", 10), ContentStats("c2", 5)]),
             ProjectStats("proj2", [ContentStats("c3", 8)])]
  {
    var r1, r2, r3 := GroupedStat("proj1", "c1", 10), GroupedStat("proj1", "c2", 5), GroupedStat("proj2", "c3", 8);
    var rows := [r1, r2, r3];
    assert [] + [r1] == [r1];
    assert [r1] + [r2] == [r1, r2];
    assert [r1, r2] + [r3] == rows;
    FirstSeenSnoc([], ProjectOf, r1);
    FirstSeenSnoc([r1], ProjectOf, r2);
    FirstSeenSnoc([r1, r2], ProjectOf, r3);
    assert FirstSeen(rows, ProjectOf) == ["proj1", "proj2"];
    CollectSnoc([], ProjectOf, ToContentStats, r1, "proj1");
    CollectSnoc([r1], ProjectOf, ToContentStats, r2, "proj1");
    CollectSnoc([r1, r2], ProjectOf, ToContentStats, r3, "proj1");
    CollectSnoc([], ProjectOf, ToContentStats, r1, "proj2");
    CollectSnoc([r1], ProjectOf, ToContentStats, r2, "proj2");
    CollectSnoc([r1, r2], ProjectOf, ToContentStats, r3, "proj2");
    assert Collect(rows, ProjectOf, ToContentStats, "proj1") == [ContentStats("c1", 10), ContentStats("c2", 5)];
    assert Collect(rows, ProjectOf, ToContentStats, "proj2") == [ContentStats("c3", 8)];
    assert Listing(rows)[0] == ProjectStats("proj1", [ContentStats("c1", 10), ContentStats("c2", 5)]);
    assert Listing(rows)[1] == ProjectStats("proj2", [ContentStats("c3", 8)]);
  }
}
