/**
 * What the first-use seeding of `GetFaqCollection` (FaqPlugin.cs) writes into
 * the collection: each seed entry, with both vectors filled in from the
 * embedding generator, upserted under its key, one after the other.
 */
module FaqSeeding {
  import opened FaqTypes

  /** A seed entry with `QuestionEmbedding` and `ResponseEmbedding` set from `embed`. */
  function WithEmbeddings(faq: FaqModel, embed: string -> Embedding): FaqModel
  {
    faq.(questionEmbedding := embed(faq.question), responseEmbedding := embed(faq.response))
  }

  /** The records after upserting every entry of `faqs`, in order, into `records`. */
  function Seeded(records: map<Id, FaqModel>, faqs: seq<FaqModel>, embed: string -> Embedding): map<Id, FaqModel>
  {
    if faqs == [] then records
    else
      var n := |faqs| - 1;
      Seeded(records, faqs[..n], embed)[faqs[n].id := WithEmbeddings(faqs[n], embed)]
  }

  /** The keys of the seed entries. */
  function SeedIds(faqs: seq<FaqModel>): set<Id>
  {
    set f | f in faqs :: f.id
  }

  /** No two seed entries share a key. */
  predicate DistinctIds(faqs: seq<FaqModel>)
  {
    forall i, j :: 0 <= i < j < |faqs| ==> faqs[i].id != faqs[j].id
  }

  /** Seeding adds exactly the keys of the seed entries. */
  lemma {:induction false} SeededKeys(records: map<Id, FaqModel>, faqs: seq<FaqModel>, embed: string -> Embedding)
    ensures Seeded(records, faqs, embed).Keys == records.Keys + SeedIds(faqs)
  {
    if faqs != [] {
      var n := |faqs| - 1;
      SeededKeys(records, faqs[..n], embed);
      assert faqs == faqs[..n] + [faqs[n]];
      assert SeedIds(faqs) == SeedIds(faqs[..n]) + {faqs[n].id};
    }
  }

  /** A record whose key no seed entry has is left as it was. */
  lemma {:induction false} SeededKeepsOthers(records: map<Id, FaqModel>, faqs: seq<FaqModel>, embed: string -> Embedding, id: Id)
    requires id in records && id !in SeedIds(faqs)
    ensures id in Seeded(records, faqs, embed) && Seeded(records, faqs, embed)[id] == records[id]
  {
    if faqs != [] {
      var n := |faqs| - 1;
      assert faqs[n] in faqs;
      assert SeedIds(faqs[..n]) <= SeedIds(faqs);
      SeededKeepsOthers(records, faqs[..n], embed, id);
    }
  }

  /**
   * Upserts overwrite: the key of a seed entry maps to the last entry with that
   * key, with both of its vectors set from `embed`.
   */
  lemma {:induction false} SeededLastWins(records: map<Id, FaqModel>, faqs: seq<FaqModel>, embed: string -> Embedding, i: int)
    requires 0 <= i < |faqs|
    requires forall j :: i < j < |faqs| ==> faqs[j].id != faqs[i].id
    ensures faqs[i].id in Seeded(records, faqs, embed)
    ensures Seeded(records, faqs, embed)[faqs[i].id] == WithEmbeddings(faqs[i], embed)
  {
    var n := |faqs| - 1;
    if i < n {
      SeededLastWins(records, faqs[..n], embed, i);
    }
  }

  /**
   * Seeding an empty collection stores only seed entries: every record is a
   * seed entry under its own key, and its vectors are the embeddings of its
   * own question and response.
   */
  lemma {:induction false} SeededRecordsEmbedded(faqs: seq<FaqModel>, embed: string -> Embedding)
    ensures forall id :: id in Seeded(map[], faqs, embed) ==>
      var r := Seeded(map[], faqs, embed)[id];
      r.id == id &&
      r.questionEmbedding == embed(r.question) && r.responseEmbedding == embed(r.response) &&
      exists i :: 0 <= i < |faqs| && r == WithEmbeddings(faqs[i], embed)
  {
    if faqs != [] {
      var n := |faqs| - 1;
      SeededRecordsEmbedded(faqs[..n], embed);
      var prev := Seeded(map[], faqs[..n], embed);
      forall id | id in Seeded(map[], faqs, embed)
        ensures var r := Seeded(map[], faqs, embed)[id];
          r.id == id &&
          r.questionEmbedding == embed(r.question) && r.responseEmbedding == embed(r.response) &&
          exists i :: 0 <= i < |faqs| && r == WithEmbeddings(faqs[i], embed)
      {
        if id != faqs[n].id {
          var i :| 0 <= i < n && prev[id] == WithEmbeddings(faqs[..n][i], embed);
          assert faqs[..n][i] == faqs[i];
        }
      }
    }
  }

  /**
   * With a generator whose vectors have the declared length, every seeded
   * record has both vector fields filled to that length.
   */
  lemma SeededVectorsFilled(faqs: seq<FaqModel>, embed: string -> Embedding)
    requires forall t :: |embed(t)| == Dimension
    ensures forall id :: id in Seeded(map[], faqs, embed) ==>
      |Seeded(map[], faqs, embed)[id].questionEmbedding| == Dimension &&
      |Seeded(map[], faqs, embed)[id].responseEmbedding| == Dimension
  {
    SeededRecordsEmbedded(faqs, embed);
  }

  /** With distinct keys, seeding an empty collection stores exactly one record per seed entry. */
  lemma {:induction false} SeededCount(faqs: seq<FaqModel>, embed: string -> Embedding)
    requires DistinctIds(faqs)
    ensures |Seeded(map[], faqs, embed)| == |faqs|
  {
    if faqs != [] {
      var n := |faqs| - 1;
      SeededCount(faqs[..n], embed);
      SeededKeys(map[], faqs[..n], embed);
      assert faqs[n].id !in SeedIds(faqs[..n]);
    }
  }
}
