/** Entities shared by the use cases, the store and the embedding adapters. */
module Domain {
  import opened Wrappers

  /** An embedding vector; components are modelled as reals. */
  type Vector = seq<real>

  /** A stored text chunk, tagged by project and content (src/domain/entities/document.entity.ts). */
  datatype Document = Document(
    id: string,
    projectId: string,
    contentId: string,
    content: string,
    embedding: Vector)

  /** The errors the core throws; the provider's own failures are carried as `ProviderError`. */
  datatype Error =
    | ProviderError(reason: string)
    | EmbeddingCountMismatch
    | EmptyEmbeddingResult
    | InvalidFilter

  /**
   * The message each thrown error carries. No contract refers to it: the contracts speak of
   * `Error` values, and this function records which text each value stands for.
   */
  function Message(e: Error): string
  {
    match e
    case ProviderError(reason) => reason
    case EmbeddingCountMismatch => "Mismatch between data and embeddings count"
    case EmptyEmbeddingResult => "Failed to generate embedding for search query"
    case InvalidFilter =>
      "You must provide at least one filter (projectId or contentId) to remove data."
  }

  /**
   * An embedding provider: maps a batch of texts to a batch of vectors, or fails.
   * Its network and credential handling are outside the model.
   */
  type Embedder = seq<string> -> Result<seq<Vector>, Error>

  /** A tag filter field counts as given only when it is defined and not the empty string. */
  predicate IsPresent(tag: Option<string>)
  {
    tag.Some? && tag.value != ""
  }
}
