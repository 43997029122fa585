# FAQ plugin of Helper.Chat, in Dafny

Helper.Chat is a console chat assistant. A language-model "kernel" may call two
tool plugins. The only logic the repository writes itself is in the FAQ plugin
(`FaqPlugin`). This project models that plugin and proves what it promises:

- **Lazy seeding** (`GetFaqCollection`, `InitializeAsync`). If the "FAQ" collection
  does not exist in the vector store, it is created. Then every entry of the seed
  file gets a question vector and a response vector from the embedding generator
  and is upserted under its `Id`. If the collection already exists, nothing is
  written.
- **Two-pass retrieval** (`GetFaq`). A null, empty or blank question returns the
  empty list before the store is touched. Otherwise the question is embedded once.
  Pass 1 searches the question vectors (top 3) and keeps every hit scoring strictly
  above 0.3, in search order. Pass 2 searches the response vectors (top 5) with the
  same query vector. It appends every hit scoring strictly above 0.5 whose question
  text is not already in the list. Each kept record is projected to
  `FaqBasic(Question, Response)`.

Files:

- `faq_types.dfy` (`FaqTypes`): `FaqModel`, `FaqBasic`, the `ulong` key, the vector type.
- `vector_store.dfy` (`VectorStore`): the collection as a class with an existence flag
  and a key-to-record map. Nearest-neighbour search is an external function.
- `faq_search.dfy` (`FaqSearch`): the two passes. Each pass is a specification function
  and a loop method proved equal to it. The lemmas state what the merge means.
- `faq_seeding.dfy` (`FaqSeeding`): what seeding writes, and lemmas about it.
- `faq_plugin.dfy` (`FaqPluginModel`): the whitespace guard and the `FaqPlugin` class.
- `wrappers.dfy` (`Wrappers`): `Option`. `None` models a null question or a null score.

Three consequences of the code worth knowing:

- The code de-duplicates only pass 2. Two pass-1 hits with the same question are
  both kept (`QuestionPassKeepsDuplicates`). So the whole result is duplicate-free
  only when the pass-1 entries are (`MergeDistinct`).
- Seeding stores one record per seed entry only when the entries have distinct
  `Id`s (`SeededCount`). An upsert under an `Id` already written overwrites the
  earlier record, so the last entry with each `Id` wins, in file order, as the
  sequential model runs the upserts (`SeededLastWins`).
- A search hit whose score is null clears neither threshold: the lifted
  comparison `Score > threshold` is false for null (`SingleRecordScenarios`).

## Model

| member | source | states |
|---|---|---|
| `FaqTypes.ToBasic` | FaqBasic.cs:3 | Definition: the `FaqBasic(FaqModel)` constructor keeps a record's question and answer text and drops its key and vectors. |
| `FaqSearch.ScoreAbove` | FaqPlugin.cs:72 | Definition: the lifted comparison `Score > threshold`, false for a null score; used with 0.3 here and with 0.5 at FaqPlugin.cs:88. |
| `FaqSearch.Merge` | FaqPlugin.cs:56-98 | Definition: the returned list is pass 2 run over the answer-vector hits, starting from the pass-1 list of the question-vector hits. |
| `FaqSearch.AnyQuestion` | FaqPlugin.cs:90 | The `Any` check returns true exactly when some entry already in the list has the hit's question text. |
| `FaqSearch.KeepQuestionMatches` | FaqPlugin.cs:70-77 | The pass-1 loop builds exactly the pass-1 list `QuestionPass` of the question-vector hits. |
| `FaqSearch.AppendResponseMatches` | FaqPlugin.cs:86-96 | The pass-2 loop, appending to the list built so far, yields exactly `ResponsePass` of that list and the answer-vector hits. |
| `FaqSearch.QuestionPassSelection` | FaqPlugin.cs:70-77 | Pass 1 outputs the projections of the hits at strictly increasing positions, in search order. A position is kept exactly when its hit has a score strictly above 0.3, so a hit at exactly 0.3, or with a null score, is dropped. |
| `FaqSearch.QuestionPassLength` | FaqPlugin.cs:70-77 | Pass 1 keeps at most one entry per hit. |
| `FaqSearch.QuestionPassKeepsDuplicates` | FaqPlugin.cs:72-75 | Pass 1 does not de-duplicate: two records with different keys and the same question, both above 0.3, are both kept. |
| `FaqSearch.ResponsePassQuestions` | FaqPlugin.cs:86-96 | After pass 2 a question is present exactly when it was present before pass 2 or some answer hit above 0.5 carries it. |
| `FaqSearch.ResponsePassExtends` | FaqPlugin.cs:86-96 | Pass 2 only appends: the list it starts from is a prefix of its output, and it adds at most one entry per hit. |
| `FaqSearch.ResponsePassSelection` | FaqPlugin.cs:86-96 | Pass 2 keeps its starting list as a prefix. It then appends the projections of answer hits at strictly increasing positions. A position is appended exactly when its hit scores above 0.5 and its question is neither in the starting list nor on an earlier answer hit above 0.5. |
| `FaqSearch.ResponsePassAddsNoDuplicate` | FaqPlugin.cs:88-94 | Pass 2 never creates a duplicate question: every entry it appends differs in question from every entry before it, whether a pass-1 entry or one of its own earlier additions, whatever the starting list holds. |
| `FaqSearch.ResponsePassKeepsDistinct` | FaqPlugin.cs:86-96 | Pass 2 keeps a duplicate-free list duplicate-free. |
| `FaqSearch.MergeStructure` | FaqPlugin.cs:56-96 | The pass-1 list is a prefix of the result, and the result is no longer than the two hit lists together. |
| `FaqSearch.MergeAtMostEight` | FaqPlugin.cs:63-84 | With the searches capped at `Top` 3 and 5, the result has at most 8 entries. |
| `FaqSearch.MergeProvenance` | FaqPlugin.cs:70-96 | Every result entry is the `(Question, Response)` of a question hit above 0.3 or of an answer hit above 0.5. |
| `FaqSearch.MergeDistinct` | FaqPlugin.cs:86-96 | If the pass-1 entries have distinct questions, so does the result. |
| `FaqSearch.MergeCoversResponseMatches` | FaqPlugin.cs:86-96 | Every answer hit above 0.5 has its question in the result, from pass 1 or from pass 2. |
| `FaqSearch.SingleRecordScenarios` | FaqPlugin.cs:70-96 | One record: scores 0.9/0.2 give it once; 0.3/0.6 give it once via pass 2; 0.1/0.4 give nothing; 0.9/0.9 give it once; null scores give nothing. |
| `FaqSeeding.Seeded` | FaqPlugin.cs:37-43 | Definition: the store after the seed entries are given both vectors from the generator and upserted one after another in file order. |
| `FaqSeeding.SeededKeys` | FaqPlugin.cs:37-43 | After seeding, the keys are the previous keys plus the `Id`s of the seed entries. |
| `FaqSeeding.SeededKeepsOthers` | FaqPlugin.cs:41 | Seeding does not change a record whose key no seed entry has. |
| `FaqSeeding.SeededLastWins` | FaqPlugin.cs:37-43 | Each seed `Id` maps to the last entry with that `Id`, with both vectors set from the generator. |
| `FaqSeeding.SeededRecordsEmbedded` | FaqPlugin.cs:39-41 | Seeding an empty collection stores only seed entries, each under its own key, with `QuestionEmbedding = embed(Question)` and `ResponseEmbedding = embed(Response)`. |
| `FaqSeeding.SeededVectorsFilled` | FaqModel.cs:16-20 | If the generator's vectors have length 3072, both vector fields of every seeded record have length 3072. |
| `FaqSeeding.SeededCount` | FaqPlugin.cs:37-43 | With distinct `Id`s, seeding an empty collection stores exactly one record per seed entry. |
| `FaqPluginModel.IsNullOrWhiteSpace` | FaqPlugin.cs:57 | Definition: `string.IsNullOrWhiteSpace`, true for null or for a string made only of .NET white-space characters. |
| `FaqPluginModel.BlankQuestions` | FaqPlugin.cs:57 | The guard catches null, empty and all-whitespace questions (including non-ASCII spaces) and lets a question with a visible character through. |
| `FaqPluginModel.FaqPlugin.constructor` | FaqPlugin.cs:15-19 | The plugin keeps the injected store and embedding generator. |
| `FaqPluginModel.FaqPlugin.GetFaqCollection` | FaqPlugin.cs:26-48 | Afterwards the collection exists. If it existed, no record changed. Otherwise it holds exactly the seed entries, embedded and upserted in file order. |
| `FaqPluginModel.FaqPlugin.Initialize` | FaqPlugin.cs:21-24 | Same post-state as `GetFaqCollection`. |
| `FaqPluginModel.FaqPlugin.GetFaq` | FaqPlugin.cs:52-99 | Blank question: empty result, store unchanged. Otherwise: collection seeded if needed, and the result is the merge of the two searches run with the same query vector. It has at most 8 entries, each a projection of a stored record. |
| `VectorStore.FaqCollection.constructor` | Program.cs:29 | A fresh in-memory store in which the collection does not exist and holds no records. |
| `VectorStore.FaqCollection.CollectionExists` | FaqPlugin.cs:29 | Reports whether the collection has been created. |
| `VectorStore.FaqCollection.CreateCollection` | FaqPlugin.cs:32 | Afterwards the collection exists; its records are unchanged (none, when it did not exist). |
| `VectorStore.FaqCollection.Upsert` | FaqPlugin.cs:41 | Stores the record under its `Id`, overwriting any record already there. Nothing else changes. |
| `VectorStore.FaqCollection.VectorizedSearch` | FaqPlugin.cs:63-68 | A search returns at most `Top` hits, each a stored record, as the store's search function gives them. |

## Left out

- Computing embeddings and similarity scores, and the store's nearest-neighbour ranking. These belong to external libraries. The generator is a function parameter `embed`. The search is a function `search` of the records, the query vector, the field and `Top`. The model assumes only that a search returns at most `Top` hits, all stored records.
- Float rounding of `0.3f` and `0.5f`, and `float`/`double` scores: scores are `real` (or null), and the thresholds are exactly 0.3 and 0.5.
- FaqPluginModel.FaqPlugin.GetFaq: the model cannot state that the embedding generator is not called on a blank question, because `embed` is a pure function. It states only that the store is left unchanged.
- The unguarded existence check of `GetFaqCollection` (FaqPlugin.cs:29): nothing locks it, so two concurrent callers could both find the collection missing and both seed it. The model's methods run one at a time, so this race is not modelled.
- The concurrent upserts of `Task.WhenAll` (FaqPlugin.cs:37-43) are modelled as a sequential loop in file order. Under real concurrency, which of two entries with the same `Id` wins is not modelled.
- Reading and deserializing `Faq.json` (FaqPlugin.cs:35): the seed entries are given as the constructor's `faqFile`. A missing or malformed file, a fatal error in the source, is not modelled.
- The console output of `WriteLine` (FaqPlugin.cs:101-107) and the progress messages: console I/O.
- Failures of the store or the generator, which propagate as exceptions: the external calls are modelled as total.
- The `KernelFunction` and `Description` attributes that expose `GetFaq` to the chat kernel: tool registration is part of the external framework.
- `ImagePlugin.cs`: file reads, an HTTP GET and a vision-model call, all I/O and foreign calls.
- `Program.cs`: dependency wiring, model download with progress output, and the console chat loop over an external chat-completion service.
