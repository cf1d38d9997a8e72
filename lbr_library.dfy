/**
 * The lbr-server document library (lbr-server/src/library.rs): documents keyed by ids
 * `0 .. n - 1` when loaded, a counter for the next id, and the three-field search engine,
 * which every document enters on load and on insertion and leaves on removal.
 *
 * Reading the index file is I/O: loading starts from the decoded list. Whether writing the
 * index file back succeeds (`write`) is a parameter. Removal uses the corrected engine
 * removal (`Indices.Purge`), which takes the document out of every gram whatever its count.
 */
module LbrLibrary {
  import opened Results
  import opened GramIndex
  import opened SearchEngine
  import opened LbrDoc

  datatype Error = WriteFailed

  /** The fields the engine indexes for a document. */
  function FieldsOf(d: Doc): Fields {
    Fields(d.title, d.authors, d.keywords)
  }

  /** The engine's view of the documents in `done`. */
  function Indexed(docs: map<DocId, Doc>, done: set<DocId>): map<DocId, Fields> {
    map id | id in done && id in docs :: FieldsOf(docs[id])
  }

  /** What `write` reports: the in-memory change stays whether or not the file was written. */
  function Written(saved: bool): Result<(), Error> {
    if saved then Ok(()) else Err(WriteFailed)
  }

  /** One turn of the loading loop: document `id` goes into the engine. */
  method IndexOne(e: Indices, ds: map<DocId, Doc>, ghost done: set<DocId>, id: DocId)
    requires e.Valid() && id in ds && id !in done && HoldsExactly(e.State(), Indexed(ds, done))
    modifies e.title, e.authors, e.keywords
    ensures e.Valid() && HoldsExactly(e.State(), Indexed(ds, done + {id}))
  {
    var d := ds[id];
    assert Indexed(ds, done + {id}) == Indexed(ds, done)[id := FieldsOf(d)];
    HoldsInsert(e.State(), Indexed(ds, done), id, FieldsOf(d));
    e.Insert(id, d.title, d.authors, d.keywords);
  }

  /** The loop of `from_file`: every document goes into the empty engine, by ascending id. */
  method IndexAll(e: Indices, ds: map<DocId, Doc>)
    requires e.Valid() && HoldsExactly(e.State(), Indexed(ds, {}))
    modifies e.title, e.authors, e.keywords
    ensures e.Valid() && HoldsExactly(e.State(), Indexed(ds, ds.Keys))
  {
    var todo := ds.Keys;
    while todo != {}
      invariant todo <= ds.Keys
      invariant e.Valid() && HoldsExactly(e.State(), Indexed(ds, ds.Keys - todo))
      decreases |todo|
    {
      var id := Least(todo);
      ghost var done := ds.Keys - todo;
      IndexOne(e, ds, done, id);
      todo := todo - {id};
      assert ds.Keys - todo == done + {id};
    }
    assert ds.Keys - todo == ds.Keys;
  }

  /** Inserting a new document into a synced engine and map keeps them synced. */
  lemma SyncInsert(e: EngineState, docs: map<DocId, Doc>, id: DocId, d: Doc)
    requires HoldsExactly(e, Indexed(docs, docs.Keys)) && id !in docs
    ensures HoldsExactly(EngineInserted(e, id, d.title, d.authors, d.keywords), Indexed(docs[id := d], docs[id := d].Keys))
  {
    assert Indexed(docs[id := d], docs[id := d].Keys) == Indexed(docs, docs.Keys)[id := FieldsOf(d)];
    HoldsInsert(e, Indexed(docs, docs.Keys), id, FieldsOf(d));
  }

  /** Removing a stored document from a synced engine (corrected) and map keeps them synced. */
  lemma SyncRemove(e: EngineState, docs: map<DocId, Doc>, id: DocId)
    requires HoldsExactly(e, Indexed(docs, docs.Keys)) && id in docs
    ensures HoldsExactly(EnginePurged(e, id), Indexed(docs - {id}, (docs - {id}).Keys))
  {
    assert Indexed(docs - {id}, (docs - {id}).Keys) == Indexed(docs, docs.Keys) - {id};
    HoldsPurge(e, Indexed(docs, docs.Keys), id);
  }

  class Library {
    var docs: map<DocId, Doc>
    var last: nat
    const engine: Indices

    ghost predicate Valid()
      reads this, engine, engine.title, engine.authors, engine.keywords
    {
      engine.Valid()
    }

    /** Every stored id is below the counter, so the counter's next id is unused. */
    ghost predicate Fresh()
      reads this
    {
      forall id :: id in docs ==> id < last
    }

    /** The engine holds exactly the stored documents. */
    ghost predicate Synced()
      reads this, engine, engine.title, engine.authors, engine.keywords
    {
      HoldsExactly(engine.State(), Indexed(docs, docs.Keys))
    }

    /**
     * `from_file`, from the decoded list on: the documents are numbered by position, all of
     * them are indexed, and the counter starts at their number, past every id.
     */
    constructor FromFile(list: seq<Doc>)
      ensures docs == DeserializeDocs(list) && last == |list|
      ensures Valid() && Synced() && Fresh()
    {
      docs := DeserializeDocs(list);
      last := |list|;
      engine := new Indices();
      new;
      HoldsNothing();
      assert Indexed(docs, {}) == map[];
      IndexAll(engine, docs);
    }

    /** `search`: the ids of the ten best-scoring documents, best first. */
    method Search(text: string, ln: real -> real) returns (ids: seq<DocId>)
      requires Valid()
      ensures EngineValid(engine.State()) && TopIds(ids, Combined(engine.State(), text, ln), 10)
    {
      var hits := engine.Search(text, 10, ln);
      TopHitsIds(hits, Combined(engine.State(), text, ln), 10);
      ids := Ids(hits);
    }

    /**
     * `get`: `self.docs[&id]`, which panics on an unknown id. While the library is in step, the
     * engine holds the returned document's fields under `id`.
     */
    function Get(id: DocId): (d: Doc)
      requires id in docs
      reads this, engine, engine.title, engine.authors, engine.keywords
      ensures d == docs[id]
      ensures Synced() ==> id in Indexed(docs, docs.Keys) && Indexed(docs, docs.Keys)[id] == FieldsOf(d)
    {
      docs[id]
    }

    /**
     * `insert`: the document takes the counter's id, enters the engine and the map; the
     * index file is then written.
     */
    method Insert(doc: Doc, saved: bool) returns (r: Result<(), Error>)
      requires Valid()
      modifies this, engine.title, engine.authors, engine.keywords
      ensures Valid()
      ensures last == old(last) + 1 && docs == old(docs)[old(last) := doc]
      ensures engine.State() == EngineInserted(old(engine.State()), old(last), doc.title, doc.authors, doc.keywords)
      ensures r == Written(saved)
      ensures old(Fresh()) ==> Fresh() && old(last) !in old(docs)
      ensures old(Fresh()) && old(Synced()) ==> Synced()
    {
      if Fresh() && Synced() {
        SyncInsert(engine.State(), docs, last, doc);
      }
      var id := last;
      last := last + 1;
      engine.Insert(id, doc.title, doc.authors, doc.keywords);
      docs := docs[id := doc];
      r := Written(saved);
    }

    /**
     * `remove`: the document leaves the engine and the map; the index file is then written. An
     * unknown id changes no map entry.
     */
    method Remove(id: DocId, saved: bool) returns (r: Result<(), Error>)
      requires Valid()
      modifies this, engine.title, engine.authors, engine.keywords
      ensures Valid()
      ensures docs == old(docs) - {id} && last == old(last)
      ensures engine.State() == EnginePurged(old(engine.State()), id)
      ensures r == Written(saved)
      ensures old(Fresh()) ==> Fresh()
      ensures old(Synced()) && id in old(docs) ==> Synced()
    {
      if Synced() && id in docs {
        SyncRemove(engine.State(), docs, id);
      }
      engine.Purge(id);
      docs := docs - {id};
      r := Written(saved);
    }
  }
}
