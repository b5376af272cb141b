/**
 * Removing documents by tag filter (src/application/use-cases/remove-data.use-case.ts).
 * The guard treats an undefined tag and the empty string alike (both are falsy); the
 * repository then receives the filter exactly as given.
 */
module RemoveData {
  import opened Wrappers
  import opened Domain
  import opened DocumentStore

  /** At least one of the two tags is given. */
  predicate HasFilter(projectId: Option<string>, contentId: Option<string>)
  {
    IsPresent(projectId) || IsPresent(contentId)
  }

  /**
   * Rejects an unscoped removal before touching the store; otherwise passes both filters
   * through to `deleteMany`.
   */
  method RemoveData(store: DocumentStore, projectId: Option<string>, contentId: Option<string>)
    returns (outcome: Outcome<Error>)
    modifies store
    ensures outcome.Fail? <==> (projectId.None? || projectId.value == "") && (contentId.None? || contentId.value == "")
    ensures outcome.Fail? ==> outcome.error == InvalidFilter && unchanged(store)
    ensures outcome.Pass? ==>
      && store.rows == Reject(old(store.rows), projectId, contentId)
      && store.calls == old(store.calls) + [DeleteManyCall(projectId, contentId)]
  {
    if !HasFilter(projectId, contentId) {
      return Fail(InvalidFilter);
    }
    store.DeleteMany(projectId, contentId);
    outcome := Pass;
  }

  /** After removing by a project alone, no row of that project is left. */
  lemma RemovedProjectIsEmpty(rows: seq<Document>, projectId: string)
    ensures Select(Reject(rows, Some(projectId), None), Some(projectId), None) == []
  {
    RejectLeavesNoMatch(rows, Some(projectId), None);
  }

  /** Removing by a project leaves every other project's rows as they were. */
  lemma RemoveKeepsOtherProjects(rows: seq<Document>, projectId: string, other: string)
    requires other != projectId
    ensures Select(Reject(rows, Some(projectId), None), Some(other), None) == Select(rows, Some(other), None)
  {
    SelectAfterReject(rows, Some(projectId), None, Some(other), None);
    SelectNoneMatch(Select(rows, Some(other), None), Some(projectId), None);
  }
}
