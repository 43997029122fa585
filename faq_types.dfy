/**
 * The two record types of the FAQ plugin: the stored record `FaqModel`
 * (FaqModel.cs) and its read-only projection `FaqBasic` (FaqBasic.cs).
 */
module FaqTypes {

  /** The record key: a C# `ulong`. */
  type Id = x: int | 0 <= x < 0x1_0000_0000_0000_0000

  /**
   * An embedding vector (3072 floats in the source). Its contents are produced
   * by an external generator and are never inspected here; the default value of
   * a freshly deserialized record is the empty vector.
   */
  type Embedding = seq<real>

  /** The declared length of both vector fields (`VectorStoreRecordVector(3072)`). */
  const Dimension: nat := 3072

  /** A stored FAQ entry: key, question and response text, and one vector per text field. */
  datatype FaqModel = FaqModel(
    id: Id,
    question: string,
    response: string,
    questionEmbedding: Embedding,
    responseEmbedding: Embedding)

  /** The projection returned to callers of the FAQ search. */
  datatype FaqBasic = FaqBasic(question: string, response: string)

  /** The `FaqBasic(FaqModel model)` constructor: keep the question and the response. */
  function ToBasic(m: FaqModel): FaqBasic
  {
    FaqBasic(m.question, m.response)
  }
}
