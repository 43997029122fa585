/**
 * The slice of the external vector store that the FAQ plugin uses: one named
 * collection of `FaqModel` records keyed by `Id`, an existence flag, creation,
 * upsert, and nearest-neighbour search over one of the two vector fields.
 * The ranking itself is external and is represented by the `search` function.
 */
module VectorStore {
  import opened Wrappers
  import opened FaqTypes

  /** The vector property a search runs over (`VectorPropertyName`). */
  datatype VectorField = QuestionEmbedding | ResponseEmbedding

  /** One search result: the record and its similarity score, which the library may leave null (`None`). */
  datatype Hit = Hit(record: FaqModel, score: Option<real>)

  /** A search over the records of a collection: query vector, field and `Top`. */
  type SearchFunction = (map<Id, FaqModel>, Embedding, VectorField, nat) -> seq<Hit>

  /** The store's promise: a search yields at most `Top` results. */
  ghost predicate RespectsTop(search: SearchFunction)
  {
    forall records, query, field, top :: |search(records, query, field, top)| <= top
  }

  /** The store's promise: every result is a record of the searched collection. */
  ghost predicate ReturnsStoredRecords(search: SearchFunction)
  {
    forall records, query, field, top, h ::
      h in search(records, query, field, top) ==> h.record in records.Values
  }

  class FaqCollection {
    /** Whether the collection has been created in the store. */
    var created: bool
    /** The records of the collection, by key. */
    var records: map<Id, FaqModel>
    /** The store's nearest-neighbour search. */
    const search: SearchFunction

    /** A collection that does not exist holds no records. */
    ghost predicate Valid()
      reads this
    {
      !created ==> records == map[]
    }

    /** A store in which the collection has not been created yet. */
    constructor (search: SearchFunction)
      ensures Valid() && !created && records == map[] && this.search == search
    {
      created := false;
      records := map[];
      this.search := search;
    }

    /** `CollectionExistsAsync`. */
    method CollectionExists() returns (b: bool)
      ensures b == created
    {
      b := created;
    }

    /** `CreateCollectionAsync`: afterwards the collection exists; existing records are kept. */
    method CreateCollection()
      requires Valid()
      modifies this
      ensures Valid() && created && records == old(records)
    {
      created := true;
    }

    /** `UpsertAsync`: insert the record under its key, overwriting any record already there. */
    method Upsert(r: FaqModel)
      requires Valid() && created
      modifies this
      ensures Valid() && created && records == old(records)[r.id := r]
    {
      records := records[r.id := r];
    }

    /** `VectorizedSearchAsync` with `Skip = 0`. */
    method VectorizedSearch(query: Embedding, field: VectorField, top: nat) returns (hits: seq<Hit>)
      requires RespectsTop(search) && ReturnsStoredRecords(search)
      ensures |hits| <= top
      ensures forall h :: h in hits ==> h.record in records.Values
      ensures hits == search(records, query, field, top)
    {
      hits := search(records, query, field, top);
    }
  }
}
