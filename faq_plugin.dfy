/**
 * The FAQ plugin (FaqPlugin.cs): lazy seeding of the "FAQ" collection on first
 * use, and `GetFaq`, the tool that answers a user question with the stored FAQ
 * entries closest to it.
 */
module FaqPluginModel {
  import opened Wrappers
  import opened FaqTypes
  import opened VectorStore
  import opened FaqSearch
  import opened FaqSeeding

  /**
   * .NET's `char.IsWhiteSpace`: the space, line and paragraph separators of
   * Unicode, plus U+0009 to U+000D and U+0085.
   */
  predicate IsWhiteSpace(c: char)
  {
    ('\U{0009}' <= c <= '\U{000D}') || c == '\U{0020}' || c == '\U{0085}' || c == '\U{00A0}' ||
    c == '\U{1680}' || ('\U{2000}' <= c <= '\U{200A}') || c == '\U{2028}' || c == '\U{2029}' ||
    c == '\U{202F}' || c == '\U{205F}' || c == '\U{3000}'
  }

  /** `string.IsNullOrWhiteSpace`; `None` stands for a null reference. */
  predicate IsNullOrWhiteSpace(s: Option<string>)
  {
    s.None? || forall i :: 0 <= i < |s.value| ==> IsWhiteSpace(s.value[i])
  }

  /** Null, empty and blank questions are caught by the guard; a question with a visible character is not. */
  lemma BlankQuestions()
    ensures IsNullOrWhiteSpace(None)
    ensures IsNullOrWhiteSpace(Some(""))
    ensures IsNullOrWhiteSpace(Some(" \t\r\n\U{00A0}\U{3000}"))
    ensures !IsNullOrWhiteSpace(Some(" a "))
  {
    assert !IsWhiteSpace(" a "[1]);
  }

  class FaqPlugin {
    /** The "FAQ" collection of the injected vector store. */
    const collection: FaqCollection
    /** The injected embedding generator. */
    const embed: string -> Embedding
    /** The entries of the static seed file, already deserialized. */
    const faqFile: seq<FaqModel>

    constructor (collection: FaqCollection, embed: string -> Embedding, faqFile: seq<FaqModel>)
      ensures this.collection == collection && this.embed == embed && this.faqFile == faqFile
    {
      this.collection := collection;
      this.embed := embed;
      this.faqFile := faqFile;
    }

    /**
     * Create and seed the collection unless it already exists. Afterwards the
     * collection exists; if it existed before, nothing was written; otherwise
     * it holds the seed entries with both vectors set, upserted in file order.
     */
    method GetFaqCollection()
      requires collection.Valid()
      modifies collection
      ensures collection.Valid() && collection.created
      ensures old(collection.created) ==> collection.records == old(collection.records)
      ensures !old(collection.created) ==> collection.records == Seeded(map[], faqFile, embed)
    {
      var collectionExists := collection.CollectionExists();
      if !collectionExists {
        collection.CreateCollection();
        var i := 0;
        while i < |faqFile|
          invariant 0 <= i <= |faqFile|
          invariant collection.Valid() && collection.created
          invariant collection.records == Seeded(map[], faqFile[..i], embed)
        {
          assert faqFile[..i + 1][..i] == faqFile[..i];
          var faq := faqFile[i];
          faq := faq.(questionEmbedding := embed(faq.question));
          faq := faq.(responseEmbedding := embed(faq.response));
          collection.Upsert(faq);
          i := i + 1;
        }
        assert faqFile[..i] == faqFile;
      }
    }

    /** `InitializeAsync`: make sure the collection exists and is seeded. */
    method Initialize()
      requires collection.Valid()
      modifies collection
      ensures collection.Valid() && collection.created
      ensures old(collection.created) ==> collection.records == old(collection.records)
      ensures !old(collection.created) ==> collection.records == Seeded(map[], faqFile, embed)
    {
      GetFaqCollection();
    }

    /**
     * The FAQ entries for `question`. A null or blank question yields the empty
     * list and leaves the store alone. Otherwise the collection is seeded if
     * needed, the question is embedded once, and the result is the two-pass
     * merge of the question-vector search (top 3) and the answer-vector search
     * (top 5), both run with that one query vector.
     */
    method GetFaq(question: Option<string>) returns (result: seq<FaqBasic>)
      requires collection.Valid()
      requires RespectsTop(collection.search) && ReturnsStoredRecords(collection.search)
      modifies collection
      ensures IsNullOrWhiteSpace(question) ==> result == [] && unchanged(collection)
      ensures !IsNullOrWhiteSpace(question) ==>
        collection.Valid() && collection.created &&
        collection.records == (if old(collection.created) then old(collection.records) else Seeded(map[], faqFile, embed)) &&
        var query := embed(question.value);
        result == Merge(collection.search(collection.records, query, QuestionEmbedding, QuestionTop),
                        collection.search(collection.records, query, ResponseEmbedding, ResponseTop))
      ensures |result| <= QuestionTop + ResponseTop
      ensures forall k :: 0 <= k < |result| ==>
        exists r :: r in collection.records.Values && result[k] == ToBasic(r)
    {
      result := [];
      if IsNullOrWhiteSpace(question) {
        return;
      }

      GetFaqCollection();
      var query := embed(question.value);

      var questionHits := collection.VectorizedSearch(query, QuestionEmbedding, QuestionTop);
      result := KeepQuestionMatches(questionHits);

      var responseHits := collection.VectorizedSearch(query, ResponseEmbedding, ResponseTop);
      result := AppendResponseMatches(result, responseHits);

      MergeStructure(questionHits, responseHits);
      MergeProvenance(questionHits, responseHits);
    }
  }
}
