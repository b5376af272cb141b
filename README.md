# vetorial-search-service — a verified model of the service core

The service stores text chunks ("documents") tagged by a `projectId` and a `contentId`, each
with an embedding vector, and answers similarity searches over them. This project models:

- the four use cases:
  - register, which replaces a tag pair's documents;
  - search, which embeds the query, searches and groups hits by tag pair;
  - list, which folds grouped counts into per-project views;
  - remove, which deletes by tag filter after an at-least-one-filter guard;
- the document repository, as an in-memory table that changes in place;
- the vector normalisation of the Gemini adapter;
- the deterministic mock embedder.

Module layout, one file each:

- `Wrappers` has `Option`, `Result` and `Outcome`.
- `Domain` has the `Document` entity, the errors with their messages and the embedding-provider type.
- `DocumentStore` has the repository, as class `DocumentStore`.
- `Grouping` has an order-preserving group-by. It is the reference definition the search and list loops are proved against.
- `RegisterData`, `SearchData`, `ListData` and `RemoveData` hold the use cases.
- `GeminiEmbedding` and `MockEmbedding` hold the adapters.

Collaborators the core cannot see enter as parameters:

- The embedding provider is a function from a batch of texts to a batch of vectors, or to an error.
- The uuid generator is a function `newId` from a document's position in the batch to its id.
- The repository's `listGrouped` is a function from `(page, limit, projectId?, contentId?)` to grouped rows.

The store carries a ghost log of the repository calls issued to it, searches included. The use cases' contracts use it to state the calls and their order:

- register issues the pair delete and then one `saveAll`;
- search issues one search call with the query's vector;
- a rejected request issues nothing.

## Model

| member | source | states |
|---|---|---|
| DocumentStore.Select | src/infrastructure/persistence/prisma/prisma-document.repository.ts:66-68 | exactly the rows matching the filter are kept (an absent tag constrains nothing, a given one, even "", requires equality), never more rows than the table |
| DocumentStore.Reject | src/infrastructure/persistence/prisma/prisma-document.repository.ts:41-46 | exactly the rows not matching the filter survive a delete by that filter |
| DocumentStore.Unloaded | src/infrastructure/persistence/prisma/prisma-document.repository.ts:76-85 | a hit keeps id, tags and content and carries an empty embedding |
| DocumentStore.UnloadedAll | src/infrastructure/persistence/prisma/prisma-document.repository.ts:76-85 | the result mapping keeps count and order, unloading each row |
| DocumentStore.DocumentStore.SaveAll | src/infrastructure/persistence/prisma/prisma-document.repository.ts:12-32 | every document is appended as a new row, in input order (never an upsert); the call is logged |
| DocumentStore.DocumentStore.DeleteByProjectAndContent | src/infrastructure/persistence/prisma/prisma-document.repository.ts:34-47 | the table loses exactly the rows whose two tags both equal the given ones; the call is logged |
| DocumentStore.DocumentStore.DeleteMany | src/domain/ports/document.repository.ts:9 | the table loses exactly the rows matching the optional filters; the call is logged |
| DocumentStore.SearchHits | src/infrastructure/persistence/prisma/prisma-document.repository.ts:49-86 | the hits are min(limit, matching rows) many, with limit defaulting to 5; every hit matches the filters and has an empty embedding; the hits are a sub-multiset of the unloaded matching rows |
| DocumentStore.DocumentStore.Search | src/infrastructure/persistence/prisma/prisma-document.repository.ts:49-86 | answers the hits for the current table, leaves the table unchanged and logs the call with its query vector, filters and limit |
| DocumentStore.SelectConcat | src/infrastructure/persistence/prisma/prisma-document.repository.ts:66-68 | filtering distributes over concatenation of tables |
| DocumentStore.RejectConcat | src/infrastructure/persistence/prisma/prisma-document.repository.ts:41-46 | deleting distributes over concatenation of tables |
| DocumentStore.SelectUnfiltered | src/infrastructure/persistence/prisma/prisma-document.repository.ts:66-68 | with no tag given, search sees every row |
| DocumentStore.SelectAllMatch | src/infrastructure/persistence/prisma/prisma-document.repository.ts:41-46 | when every row matches, a select keeps all and a delete keeps none |
| DocumentStore.SelectNoneMatch | src/infrastructure/persistence/prisma/prisma-document.repository.ts:41-46 | when no row matches, a select keeps none and a delete keeps all |
| DocumentStore.SelectAfterReject | src/infrastructure/persistence/prisma/prisma-document.repository.ts:41-46 | a filtered read after a delete equals the delete applied to the filtered read |
| DocumentStore.RejectTwice | src/infrastructure/persistence/prisma/prisma-document.repository.ts:41-46 | deleting by the same filter twice removes nothing more |
| DocumentStore.RejectLeavesNoMatch | src/infrastructure/persistence/prisma/prisma-document.repository.ts:41-46 | after a delete, no row matches its filter |
| DocumentStore.RejectKeepsUniqueIds | src/infrastructure/persistence/prisma/prisma-document.repository.ts:41-46 | a delete keeps row ids unique |
| RegisterData.BuildDocuments | src/application/use-cases/register-data.use-case.ts:35-43 | one document per text; the i-th has the i-th generated id, the given tags, text data[i] and vector embeddings[i] |
| RegisterData.RegisterData | src/application/use-cases/register-data.use-case.ts:16-47 | the provider is asked for `data`; its failure or a count mismatch fails with that error, leaves the store unchanged and issues no call; otherwise the pair is deleted and then the new documents saved, in that call order, and the table is the old one without the pair plus the new documents |
| RegisterData.ReplaceHoldsExactlyNew | src/application/use-cases/register-data.use-case.ts:28-46 | after a replace the pair holds exactly the new documents, in order |
| RegisterData.ReplaceKeepsOthers | src/application/use-cases/register-data.use-case.ts:28-46 | every filtered view that excludes the pair (other project or other content) is untouched by a replace |
| RegisterData.ReplaceTwice | src/application/use-cases/register-data.use-case.ts:28-46 | registering a pair twice leaves only the second batch: replace, not merge |
| RegisterData.NewIdsDistinct | src/application/use-cases/register-data.use-case.ts:37 | an injective id generator gives pairwise distinct ids in a batch |
| RegisterData.RegisterKeepsUniqueIds | src/application/use-cases/register-data.use-case.ts:28-46 | with fresh, distinct generated ids, a successful register keeps every table id unique |
| RemoveData.RemoveData | src/application/use-cases/remove-data.use-case.ts:11-18 | fails with the at-least-one-filter error exactly when each tag is absent or "", leaving the store unchanged with no call; otherwise issues one `deleteMany` with the filters unchanged and the table loses the matching rows |
| RemoveData.RemovedProjectIsEmpty | src/application/use-cases/remove-data.use-case.ts:17 | after removing by a project alone, no row of that project is left |
| RemoveData.RemoveKeepsOtherProjects | src/application/use-cases/remove-data.use-case.ts:17 | removing by a project leaves every other project's rows as they were |
| SearchData.SearchData | src/application/use-cases/search-data.use-case.ts:20-59 | the provider is asked for `[search]`. A provider failure fails with its error; an empty vector list fails with the empty-embedding error. Both failures leave the store unchanged and issue no search. Otherwise exactly one search is logged (first vector, the filters, limit defaulting to 5), the table is unchanged, and the result is the grouping of that search's hits |
| SearchData.GroupByKey | src/application/use-cases/search-data.use-case.ts:42-58 | the map-and-push loop yields exactly the reference grouping of the hits |
| SearchData.GroupedKeys | src/application/use-cases/search-data.use-case.ts:44-58 | one group per distinct key `projectId:contentId`, every hit's key has a group, no key twice, groups in first-seen key order |
| SearchData.GroupedTexts | src/application/use-cases/search-data.use-case.ts:47-55 | a group's projectId and contentId are those of the first hit with its key, and its texts are that key's hit contents in repository order |
| SearchData.GroupedTextCount | src/application/use-cases/search-data.use-case.ts:44-56 | the groups hold as many texts in total as there were hits |
| SearchData.KeyDeterminesPair | src/application/use-cases/search-data.use-case.ts:45 | when no project id contains ':', equal keys mean equal tag pairs |
| SearchData.OneGroupPerPair | src/application/use-cases/search-data.use-case.ts:44-56 | when no project id contains ':', each hit's pair labels a group, each group holds exactly its pair's texts, and no pair labels two groups |
| SearchData.KeyCollision | src/application/use-cases/search-data.use-case.ts:45 | the pairs ("a:b","c") and ("a","b:c") share a key and are merged into one group |
| SearchData.SearchTestScenario | src/application/use-cases/search-data.use-case.spec.ts:40-67 | three hits over two pairs give two groups, of two and one texts |
| ListData.ListData | src/application/use-cases/list-data.use-case.ts:21-51 | `listGrouped` is called with (page, limit, projectId, contentId) and its rows are folded, by the map-and-push loop, into the reference listing |
| ListData.ListingLabels | src/application/use-cases/list-data.use-case.ts:37-50 | the views are labelled one to one by the rows' first-seen project ids |
| ListData.ListingCoversProjects | src/application/use-cases/list-data.use-case.ts:37-50 | every row's project has a view and every view's project occurs in the rows |
| ListData.ListingProjectOrder | src/application/use-cases/list-data.use-case.ts:37-50 | no project has two views, and views follow the order projects first occur |
| ListData.ListingContents | src/application/use-cases/list-data.use-case.ts:44-47 | a view's contents are its project's rows in input order, as {contentId, items: count} |
| ListData.ListingEntryCount | src/application/use-cases/list-data.use-case.ts:37-48 | the views hold one content entry per input row in total: nothing dropped or merged |
| ListData.ListingEmpty | src/application/use-cases/list-data.use-case.ts:35-50 | no rows give no views |
| ListData.ListTestScenario | src/application/use-cases/list-data.use-case.spec.ts:30-57 | proj1 (c1: 10, c2: 5) and proj2 (c3: 8) give two views with two and one entries |
| GeminiEmbedding.Normalized | src/infrastructure/adapters/gemini-embedding.adapter.ts:24-31 | length is exactly 1536; a 1536-long vector is unchanged, a longer one is its first 1536 components, a shorter one keeps its prefix followed by zeros |
| GeminiEmbedding.PadWithZeros | src/infrastructure/adapters/gemini-embedding.adapter.ts:28-31 | the copy-then-fill loop over a 1536-slot buffer yields the zero-padded vector |
| GeminiEmbedding.NormalizeItem | src/infrastructure/adapters/gemini-embedding.adapter.ts:24-31 | an item, bare array or `.values` object, is brought to 1536 components |
| GeminiEmbedding.NormalizeResponse | src/infrastructure/adapters/gemini-embedding.adapter.ts:22-33 | one normalized vector per raw item, count and order kept |
| GeminiEmbedding.NormalizedIdempotent | src/infrastructure/adapters/gemini-embedding.adapter.ts:26 | normalizing twice is normalizing once |
| GeminiEmbedding.NormalizedKeepsPrefix | src/infrastructure/adapters/gemini-embedding.adapter.ts:27-30 | every component below 1536 survives normalization unchanged |
| GeminiEmbedding.NormalizedIgnoresTail | src/infrastructure/adapters/gemini-embedding.adapter.ts:27 | long vectors agreeing on their first 1536 components normalize alike |
| MockEmbedding.LowerChar | src/infrastructure/adapters/mock-embedding.adapter.ts:14 | an ASCII capital maps to its lower-case letter, every other character to itself; never yields a capital |
| MockEmbedding.ToLower | src/infrastructure/adapters/mock-embedding.adapter.ts:14 | lower-casing keeps the length and lowers each character |
| MockEmbedding.Includes | src/infrastructure/adapters/mock-embedding.adapter.ts:15 | true exactly when the part occurs at some position of the text |
| MockEmbedding.Zeros | src/infrastructure/adapters/mock-embedding.adapter.ts:11 | a vector of the given size, all zeros |
| MockEmbedding.LengthDigit | src/infrastructure/adapters/mock-embedding.adapter.ts:28 | the fallback component lies between 0 and 0.9 |
| MockEmbedding.MockVector | src/infrastructure/adapters/mock-embedding.adapter.ts:11-29 | length 1536; "vetorial"/"vector" gives (0.9, 0.1) in slots 0-1, else "mcp"/"protocol" (0.1, 0.9), else "nest"/"node" 0.9 in slot 2, else (length mod 10)/10 in slot 3; every other slot 0 |
| MockEmbedding.BuildVector | src/infrastructure/adapters/mock-embedding.adapter.ts:11-31 | filling a zeroed buffer by the first matching rule yields the reference vector |
| MockEmbedding.MockEmbed | src/infrastructure/adapters/mock-embedding.adapter.ts:6-33 | one vector per text, in order |
| MockEmbedding.DotDisjoint | src/infrastructure/adapters/mock-embedding.adapter.ts:13 | vectors never both non-zero in one slot are orthogonal |
| MockEmbedding.CaseInsensitive | src/infrastructure/adapters/mock-embedding.adapter.ts:14 | a text and its lower-cased form get the same vector |
| MockEmbedding.SameTopicSameVector | src/infrastructure/adapters/mock-embedding.adapter.ts:15-25 | texts matching the same named rule get identical vectors |
| MockEmbedding.NodeOrthogonal | src/infrastructure/adapters/mock-embedding.adapter.ts:15-25 | a "nest"/"node" vector is orthogonal to a "vector" or "protocol" one |
| MockEmbedding.FirstRuleWins | src/infrastructure/adapters/mock-embedding.adapter.ts:15-25 | a text mentioning "vector", "protocol" and "node" is classified by the first rule |

## Left out

- Distance ranking: the database's `ORDER BY embedding <=> query` is not modelled. The store returns matching rows in table order, and `DocumentStore.SearchHits` promises only facts that hold under every ranking (count, filter, unloaded embedding, sub-multiset). The query vector is recorded in the store's call log but does not influence which hits the model returns.
- Vector serialisation to the `[x,y,...]` SQL literal and the float formatting it depends on: not modelled.
- Embedding components are reals, not IEEE doubles.
- `DocumentStore.DocumentStore.DeleteMany`: the repository declares `deleteMany` but the repository class has no implementation of it. The model gives it the same filter meaning as `search` (absent tag: no constraint; given tag, even "": equality).
- `listGrouped` has no implementation either. It is a parameter of `ListData.ListData`, so neither pagination nor the counting is modelled.
- `RemoveData.RemovedProjectIsEmpty` states emptiness for the table's rows of that project, not for a later listing, because `listGrouped` is abstract.
- `findAll` is declared and not implemented: not modelled; no use case of the core calls it.
- `RegisterData.RegisterData`: a failure of the database inside `saveAll` after the delete, and so a partially registered pair, is not modelled. Every store operation succeeds.
- Database constraints (uuid column type, primary key) are not modelled. Id uniqueness is proved from premises on the generator (`RegisterData.RegisterKeepsUniqueIds`).
- The provider is modelled as a function, so that it is asked exactly once, for the given texts, is visible in the bodies but not recorded in a log.
- The OpenAI and Voyage providers, the Gemini client call and its API key are outside the model; a provider's failure is an `Error` value.
- The HTTP controller, DTO validation, module wiring, throttling and async/Promise machinery are not modelled.
- `ToLower` and `MockEmbedding.CaseInsensitive` cover ASCII letters only. JavaScript's Unicode `toLowerCase` is not modelled.
- The mock's `text.length` counts UTF-16 code units; the model counts characters.
- The test-file variant of the mock embedder is not modelled.
- `SearchData.OneGroupPerPair` assumes no project id contains ':'. `SearchData.KeyCollision` shows what happens otherwise: the use case merges two different pairs into one group, labelled by the first one. This is modelled as written.
- The remove guard treats "" like an absent tag. But when the other tag is given, `deleteMany` still receives the "" filter unchanged, and in the model that filter matches only rows whose tag is "". Prisma's actual handling of it is not part of the source.
