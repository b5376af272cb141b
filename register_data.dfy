/**
 * Registering texts under a tag pair with replace semantics
 * (src/application/use-cases/register-data.use-case.ts).
 */
module RegisterData {
  import opened Wrappers
  import opened Domain
  import opened DocumentStore

  /**
   * One new document per text: the i-th carries the i-th text and vector, the given tags and
   * the i-th id the generator hands out (`uuidv4()` is called once per element, in order).
   */
  function BuildDocuments(newId: nat -> string, projectId: string, contentId: string, data: seq<string>, embeddings: seq<Vector>): (docs: seq<Document>)
    requires |embeddings| == |data|
    ensures |docs| == |data|
    ensures forall i :: 0 <= i < |data| ==>
      && docs[i].id == newId(i)
      && docs[i].projectId == projectId && docs[i].contentId == contentId
      && docs[i].content == data[i] && docs[i].embedding == embeddings[i]
  {
    seq(|data|, i requires 0 <= i < |data| => Document(newId(i), projectId, contentId, data[i], embeddings[i]))
  }

  /** The table after replacing the pair's documents by `docs`: delete the exact pair, then append. */
  function Replace(rows: seq<Document>, projectId: string, contentId: string, docs: seq<Document>): seq<Document>
  {
    Reject(rows, Some(projectId), Some(contentId)) + docs
  }

  /**
   * Embeds `data`, rejects a vector count that differs from the text count, deletes the pair's
   * documents and inserts the new ones. A provider failure or a count mismatch leaves the store
   * untouched and issues no repository call.
   */
  method RegisterData(store: DocumentStore, embed: Embedder, newId: nat -> string, projectId: string, contentId: string, data: seq<string>)
    returns (outcome: Outcome<Error>)
    modifies store
    ensures embed(data).Failure? ==> outcome == Fail(embed(data).error) && unchanged(store)
    ensures embed(data).Success? && |embed(data).value| != |data| ==>
      outcome == Fail(EmbeddingCountMismatch) && unchanged(store)
    ensures embed(data).Success? && |embed(data).value| == |data| ==>
      var docs := BuildDocuments(newId, projectId, contentId, data, embed(data).value);
      && outcome == Pass
      && store.rows == Replace(old(store.rows), projectId, contentId, docs)
      && store.calls == old(store.calls) + [DeleteByProjectAndContentCall(projectId, contentId), SaveAllCall(docs)]
  {
    var embedded := embed(data);
    if embedded.Failure? {
      return Fail(embedded.error);
    }
    var embeddings := embedded.value;
    if |embeddings| != |data| {
      return Fail(EmbeddingCountMismatch);
    }
    store.DeleteByProjectAndContent(projectId, contentId);
    var documents := BuildDocuments(newId, projectId, contentId, data, embeddings);
    store.SaveAll(documents);
    outcome := Pass;
  }

  // ---- replace semantics ----

  /** After a replace, the pair holds exactly the new documents, in order. */
  lemma ReplaceHoldsExactlyNew(rows: seq<Document>, projectId: string, contentId: string, docs: seq<Document>)
    requires forall d :: d in docs ==> d.projectId == projectId && d.contentId == contentId
    ensures Select(Replace(rows, projectId, contentId, docs), Some(projectId), Some(contentId)) == docs
  {
    SelectConcat(Reject(rows, Some(projectId), Some(contentId)), docs, Some(projectId), Some(contentId));
    RejectLeavesNoMatch(rows, Some(projectId), Some(contentId));
    SelectAllMatch(docs, Some(projectId), Some(contentId));
  }

  /**
   * A replace leaves untouched every filtered view that cannot see the pair: another pair,
   * another project, another content id.
   */
  lemma ReplaceKeepsOthers(rows: seq<Document>, projectId: string, contentId: string, docs: seq<Document>, otherProject: Option<string>, otherContent: Option<string>)
    requires forall d :: d in docs ==> d.projectId == projectId && d.contentId == contentId
    requires (otherProject.Some? && otherProject.value != projectId) || (otherContent.Some? && otherContent.value != contentId)
    ensures Select(Replace(rows, projectId, contentId, docs), otherProject, otherContent) == Select(rows, otherProject, otherContent)
  {
    var kept := Reject(rows, Some(projectId), Some(contentId));
    SelectConcat(kept, docs, otherProject, otherContent);
    SelectNoneMatch(docs, otherProject, otherContent);
    SelectAfterReject(rows, Some(projectId), Some(contentId), otherProject, otherContent);
    SelectNoneMatch(Select(rows, otherProject, otherContent), Some(projectId), Some(contentId));
  }

  /** Registering a pair twice leaves the second batch only: replace, not merge. */
  lemma ReplaceTwice(rows: seq<Document>, projectId: string, contentId: string, first: seq<Document>, second: seq<Document>)
    requires forall d :: d in first ==> d.projectId == projectId && d.contentId == contentId
    ensures Replace(Replace(rows, projectId, contentId, first), projectId, contentId, second)
         == Replace(rows, projectId, contentId, second)
  {
    var kept := Reject(rows, Some(projectId), Some(contentId));
    RejectConcat(kept, first, Some(projectId), Some(contentId));
    SelectAllMatch(first, Some(projectId), Some(contentId));
    RejectTwice(rows, Some(projectId), Some(contentId));
  }

  /** Ids drawn from an injective generator are pairwise distinct. */
  lemma NewIdsDistinct(newId: nat -> string, projectId: string, contentId: string, data: seq<string>, embeddings: seq<Vector>)
    requires |embeddings| == |data|
    requires forall i: nat, j: nat :: i != j ==> newId(i) != newId(j)
    ensures UniqueIds(BuildDocuments(newId, projectId, contentId, data, embeddings))
  {
  }

  /**
   * When the generator is injective and hands out no id already stored, a successful register
   * keeps every id in the table unique.
   */
  lemma RegisterKeepsUniqueIds(rows: seq<Document>, newId: nat -> string, projectId: string, contentId: string, data: seq<string>, embeddings: seq<Vector>)
    requires |embeddings| == |data|
    requires UniqueIds(rows)
    requires forall i: nat, j: nat :: i != j ==> newId(i) != newId(j)
    requires forall i: nat, d :: d in rows ==> newId(i) != d.id
    ensures UniqueIds(Replace(rows, projectId, contentId, BuildDocuments(newId, projectId, contentId, data, embeddings)))
  {
    var kept := Reject(rows, Some(projectId), Some(contentId));
    var docs := BuildDocuments(newId, projectId, contentId, data, embeddings);
    RejectKeepsUniqueIds(rows, Some(projectId), Some(contentId));
    var r := kept + docs;
    forall i, j | 0 <= i < j < |r| ensures r[i].id != r[j].id {
      if j >= |kept| && i < |kept| {
        assert r[i] in rows;
        assert r[j].id == newId(j - |kept|);
      } else if i >= |kept| {
        assert r[i].id == newId(i - |kept|) && r[j].id == newId(j - |kept|);
      }
    }
  }
}
