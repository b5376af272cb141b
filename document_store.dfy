/**
 * The document repository (src/infrastructure/persistence/prisma/prisma-document.repository.ts),
 * modelled as an in-memory table of rows. The SQL text, the vector serialisation and the
 * database's distance operator are not modelled; see README.
 */
module DocumentStore {
  import opened Wrappers
  import opened Domain

  /** Row count `search` returns when no limit is given. */
  const DefaultSearchLimit: nat := 5

  function LimitOrDefault(limit: Option<nat>): nat
  {
    if limit.Some? then limit.value else DefaultSearchLimit
  }

  /**
   * Tag filter of the store: an undefined tag puts no constraint on its column, a defined one
   * (even the empty string) requires equality.
   */
  predicate Matches(d: Document, projectId: Option<string>, contentId: Option<string>)
  {
    && (projectId.None? || d.projectId == projectId.value)
    && (contentId.None? || d.contentId == contentId.value)
  }

  /** The rows that match the filter, in table order. */
  function Select(rows: seq<Document>, projectId: Option<string>, contentId: Option<string>): (r: seq<Document>)
    ensures forall d :: d in r <==> d in rows && Matches(d, projectId, contentId)
    ensures |r| <= |rows|
  {
    if rows == [] then []
    else if Matches(rows[0], projectId, contentId) then [rows[0]] + Select(rows[1..], projectId, contentId)
    else Select(rows[1..], projectId, contentId)
  }

  /** The rows that do not match the filter, in table order: what a delete by that filter keeps. */
  function Reject(rows: seq<Document>, projectId: Option<string>, contentId: Option<string>): (r: seq<Document>)
    ensures forall d :: d in r <==> d in rows && !Matches(d, projectId, contentId)
    ensures |r| <= |rows|
  {
    if rows == [] then []
    else if Matches(rows[0], projectId, contentId) then Reject(rows[1..], projectId, contentId)
    else [rows[0]] + Reject(rows[1..], projectId, contentId)
  }

  /** A search hit: the row with its embedding left unloaded (the empty sentinel). */
  function Unloaded(d: Document): (r: Document)
    ensures r.embedding == []
    ensures r.id == d.id && r.projectId == d.projectId && r.contentId == d.contentId && r.content == d.content
  {
    d.(embedding := [])
  }

  function UnloadedAll(docs: seq<Document>): (r: seq<Document>)
    ensures |r| == |docs| && forall i :: 0 <= i < |docs| ==> r[i] == Unloaded(docs[i])
  {
    seq(|docs|, i requires 0 <= i < |docs| => Unloaded(docs[i]))
  }

  function Min(a: nat, b: nat): nat
  {
    if a <= b then a else b
  }

  /** Every row id occurs once. */
  predicate UniqueIds(rows: seq<Document>)
  {
    forall i, j :: 0 <= i < j < |rows| ==> rows[i].id != rows[j].id
  }

  /** A repository call, as issued by a use case. */
  datatype StoreCall =
    | SaveAllCall(documents: seq<Document>)
    | DeleteByProjectAndContentCall(projectId: string, contentId: string)
    | DeleteManyCall(projectFilter: Option<string>, contentFilter: Option<string>)
    | SearchCall(queryEmbedding: Vector, projectFilter: Option<string>, contentFilter: Option<string>, limit: Option<nat>)

  class DocumentStore {
    /** The table, in insertion order. */
    var rows: seq<Document>
    /** The repository calls issued so far, oldest first. */
    ghost var calls: seq<StoreCall>

    constructor ()
      ensures rows == [] && calls == []
    {
      rows := [];
      calls := [];
    }

    /** Inserts every document as a new row, one at a time in order; never an upsert. */
    method SaveAll(documents: seq<Document>)
      modifies this
      ensures rows == old(rows) + documents
      ensures calls == old(calls) + [SaveAllCall(documents)]
    {
      for i := 0 to |documents|
        invariant rows == old(rows) + documents[..i]
        invariant calls == old(calls)
      {
        rows := rows + [documents[i]];
        assert documents[..i + 1] == documents[..i] + [documents[i]];
      }
      assert documents[..|documents|] == documents;
      calls := calls + [SaveAllCall(documents)];
    }

    /** Deletes exactly the rows whose project and content tags both equal the given ones. */
    method DeleteByProjectAndContent(projectId: string, contentId: string)
      modifies this
      ensures rows == Reject(old(rows), Some(projectId), Some(contentId))
      ensures calls == old(calls) + [DeleteByProjectAndContentCall(projectId, contentId)]
    {
      rows := Reject(rows, Some(projectId), Some(contentId));
      calls := calls + [DeleteByProjectAndContentCall(projectId, contentId)];
    }

    /** Deletes the rows that match the filter. */
    method DeleteMany(projectId: Option<string>, contentId: Option<string>)
      modifies this
      ensures rows == Reject(old(rows), projectId, contentId)
      ensures calls == old(calls) + [DeleteManyCall(projectId, contentId)]
    {
      rows := Reject(rows, projectId, contentId);
      calls := calls + [DeleteManyCall(projectId, contentId)];
    }

    /**
     * Nearest-neighbour search with the query vector: answers `SearchHits` over the current
     * table and records the call. The table itself is left as it is.
     */
    method Search(queryEmbedding: Vector, projectId: Option<string>, contentId: Option<string>, limit: Option<nat>)
      returns (results: seq<Document>)
      modifies this
      ensures results == SearchHits(rows, projectId, contentId, limit)
      ensures rows == old(rows)
      ensures calls == old(calls) + [SearchCall(queryEmbedding, projectId, contentId, limit)]
    {
      results := SearchHits(rows, projectId, contentId, limit);
      calls := calls + [SearchCall(queryEmbedding, projectId, contentId, limit)];
    }
  }

  /**
   * The hits of a search: at most `limit` (default 5) matching rows, embeddings unloaded.
   * Ranking by distance to the query vector is the database's; the model keeps table order
   * and promises only what holds under every ranking.
   */
  function SearchHits(rows: seq<Document>, projectId: Option<string>, contentId: Option<string>, limit: Option<nat>): (r: seq<Document>)
    ensures |r| == Min(LimitOrDefault(limit), |Select(rows, projectId, contentId)|)
    ensures forall i :: 0 <= i < |r| ==> Matches(r[i], projectId, contentId) && r[i].embedding == []
    ensures multiset(r) <= multiset(UnloadedAll(Select(rows, projectId, contentId)))
  {
    var hits := UnloadedAll(Select(rows, projectId, contentId));
    var n := Min(LimitOrDefault(limit), |hits|);
    assert hits == hits[..n] + hits[n..];
    var selected := Select(rows, projectId, contentId);
    assert forall i :: 0 <= i < n ==> selected[i] in selected && hits[i] == Unloaded(selected[i]);
    hits[..n]
  }

  // ---- properties of filtered reads and deletes ----

  lemma {:induction false} SelectConcat(a: seq<Document>, b: seq<Document>, projectId: Option<string>, contentId: Option<string>)
    ensures Select(a + b, projectId, contentId) == Select(a, projectId, contentId) + Select(b, projectId, contentId)
  {
    if a == [] {
      assert a + b == b;
    } else {
      assert (a + b)[0] == a[0];
      assert (a + b)[1..] == a[1..] + b;
      SelectConcat(a[1..], b, projectId, contentId);
    }
  }

  lemma {:induction false} RejectConcat(a: seq<Document>, b: seq<Document>, projectId: Option<string>, contentId: Option<string>)
    ensures Reject(a + b, projectId, contentId) == Reject(a, projectId, contentId) + Reject(b, projectId, contentId)
  {
    if a == [] {
      assert a + b == b;
    } else {
      assert (a + b)[0] == a[0];
      assert (a + b)[1..] == a[1..] + b;
      RejectConcat(a[1..], b, projectId, contentId);
    }
  }

  /** Without a filter, search sees every row. */
  lemma {:induction false} SelectUnfiltered(rows: seq<Document>)
    ensures Select(rows, None, None) == rows
  {
    if rows != [] {
      SelectUnfiltered(rows[1..]);
    }
  }

  /** Selecting with a filter every row matches keeps every row. */
  lemma {:induction false} SelectAllMatch(rows: seq<Document>, projectId: Option<string>, contentId: Option<string>)
    requires forall d :: d in rows ==> Matches(d, projectId, contentId)
    ensures Select(rows, projectId, contentId) == rows
    ensures Reject(rows, projectId, contentId) == []
  {
    if rows != [] {
      SelectAllMatch(rows[1..], projectId, contentId);
    }
  }

  /** A filter no row matches selects nothing and deletes nothing. */
  lemma {:induction false} SelectNoneMatch(rows: seq<Document>, projectId: Option<string>, contentId: Option<string>)
    requires forall d :: d in rows ==> !Matches(d, projectId, contentId)
    ensures Select(rows, projectId, contentId) == []
    ensures Reject(rows, projectId, contentId) == rows
  {
    if rows != [] {
      SelectNoneMatch(rows[1..], projectId, contentId);
    }
  }

  /** What a delete by a filter keeps matches a filter `inner` only where it also escapes the deleted one. */
  lemma {:induction false} SelectAfterReject(rows: seq<Document>, projectId: Option<string>, contentId: Option<string>, innerProject: Option<string>, innerContent: Option<string>)
    ensures Select(Reject(rows, projectId, contentId), innerProject, innerContent)
         == Reject(Select(rows, innerProject, innerContent), projectId, contentId)
  {
    if rows != [] {
      SelectAfterReject(rows[1..], projectId, contentId, innerProject, innerContent);
    }
  }

  /** Deleting by the same filter twice deletes nothing more. */
  lemma {:induction false} RejectTwice(rows: seq<Document>, projectId: Option<string>, contentId: Option<string>)
    ensures Reject(Reject(rows, projectId, contentId), projectId, contentId) == Reject(rows, projectId, contentId)
  {
    if rows != [] {
      RejectTwice(rows[1..], projectId, contentId);
    }
  }

  /** After deleting by a filter nothing matches it any more. */
  lemma {:induction false} RejectLeavesNoMatch(rows: seq<Document>, projectId: Option<string>, contentId: Option<string>)
    ensures Select(Reject(rows, projectId, contentId), projectId, contentId) == []
  {
    if rows != [] {
      RejectLeavesNoMatch(rows[1..], projectId, contentId);
    }
  }

  /** Deleting by a filter keeps the table's id uniqueness. */
  lemma {:induction false} RejectKeepsUniqueIds(rows: seq<Document>, projectId: Option<string>, contentId: Option<string>)
    requires UniqueIds(rows)
    ensures UniqueIds(Reject(rows, projectId, contentId))
  {
    if rows != [] {
      assert UniqueIds(rows[1..]) by {
        forall i, j | 0 <= i < j < |rows[1..]| ensures rows[1..][i].id != rows[1..][j].id {
          assert rows[1..][i] == rows[i + 1] && rows[1..][j] == rows[j + 1];
        }
      }
      RejectKeepsUniqueIds(rows[1..], projectId, contentId);
      var rest := Reject(rows[1..], projectId, contentId);
      if !Matches(rows[0], projectId, contentId) {
        forall j | 0 <= j < |rest| ensures rows[0].id != rest[j].id {
          assert rest[j] in rows[1..];
          var k :| 0 <= k < |rows[1..]| && rows[1..][k] == rest[j];
          assert rows[k + 1] == rest[j];
        }
        var r := [rows[0]] + rest;
        forall i, j | 0 <= i < j < |r| ensures r[i].id != r[j].id {
          if i > 0 {
            assert r[i] == rest[i - 1] && r[j] == rest[j - 1];
          } else {
            assert r[j] == rest[j - 1];
          }
        }
      }
    }
  }
}
