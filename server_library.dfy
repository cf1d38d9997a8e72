/**
 * The librarian-server document library (librarian-server/src/library.rs): documents keyed by
 * numeric ids, a counter handing out the next id, the library's directory, and a search engine
 * over the documents that are shown. Removing a document only hides it (`show = false`); the
 * engine is filled once, when the library is loaded, and neither `insert` nor `remove` touches
 * it afterwards.
 *
 * The index file, the environment variable naming the directory, and the file copy are I/O:
 * loading starts from the decoded contents, and the outcomes of copying (`copy`) and of
 * writing the index file back (`saved`) are parameters. Ids are written and read as decimal
 * numbers (`Decimal.Show`, `Decimal.Parse`).
 */
module ServerLibrary {
  import opened Results
  import opened GramIndex
  import opened SearchEngine
  import opened CoreDoc
  import opened Hex
  import SrcLibrary

  datatype Error = NotFound(id: DocId) | CopyFailed | PersistFailed

  /** The fields the engine indexes for a document. */
  function FieldsOf(d: Doc): Fields {
    Fields(d.title, d.authors, d.keywords)
  }

  /** The engine's view of the documents in `done` that are shown. */
  function Shown(docs: map<DocId, Doc>, done: set<DocId>): map<DocId, Fields> {
    map id | id in done && id in docs && docs[id].show :: FieldsOf(docs[id])
  }

  /** One step of loading: the next document goes into the engine exactly when it is shown. */
  lemma LoadStep(e: EngineState, docs: map<DocId, Doc>, done: set<DocId>, id: DocId)
    requires id in docs && id !in done && HoldsExactly(e, Shown(docs, done))
    ensures docs[id].show ==>
      HoldsExactly(EngineInserted(e, id, docs[id].title, docs[id].authors, docs[id].keywords), Shown(docs, done + {id}))
    ensures !docs[id].show ==> HoldsExactly(e, Shown(docs, done + {id}))
  {
    var d := docs[id];
    if d.show {
      assert Shown(docs, done + {id}) == Shown(docs, done)[id := FieldsOf(d)];
      HoldsInsert(e, Shown(docs, done), id, FieldsOf(d));
    } else {
      assert Shown(docs, done + {id}) == Shown(docs, done);
    }
  }

  /** `get`/`get_mut`: a document is found only when it is present and shown. */
  function Lookup(docs: map<DocId, Doc>, id: DocId): (r: Result<Doc, Error>)
    ensures r.Ok? <==> id in docs && docs[id].show
    ensures r.Ok? ==> r.value == docs[id] && r.value.show
    ensures r.Err? ==> r.error == NotFound(id)
  {
    if id in docs && docs[id].show then Ok(docs[id]) else Err(NotFound(id))
  }

  /** What `remove` does to the map: the found document is kept, with `show` cleared. */
  function Hide(docs: map<DocId, Doc>, id: DocId): map<DocId, Doc> {
    match Lookup(docs, id)
    case Ok(d) => docs[id := d.(show := false)]
    case Err(_) => docs
  }

  /**
   * Removing a document makes it unfindable and leaves every other lookup as it was; nothing
   * is deleted, the hidden entry keeps all its other fields, and removing an id that cannot be
   * found changes nothing. Removing twice is removing once.
   */
  lemma HideEffect(docs: map<DocId, Doc>, id: DocId)
    ensures Lookup(Hide(docs, id), id).Err?
    ensures forall other :: other != id ==> Lookup(Hide(docs, id), other) == Lookup(docs, other)
    ensures Hide(docs, id).Keys == docs.Keys
    ensures id in docs ==> Hide(docs, id)[id] == docs[id].(show := false)
    ensures Lookup(docs, id).Err? ==> Hide(docs, id) == docs
    ensures Hide(Hide(docs, id), id) == Hide(docs, id)
  {
  }

  /** What `persist` reports: the in-memory change stays whether or not the file was written. */
  function Persisted(saved: bool): Result<(), Error> {
    if saved then Ok(()) else Err(PersistFailed)
  }

  /** `self.path.join(&doc.filename())`: where `insert` copies a document's file. */
  function Destination(root: string, d: Doc): string {
    ShowHashShape(d.hash);
    assert Filename(d)[0] == ShowHash(d.hash)[0];
    SrcLibrary.Join(root, Filename(d))
  }

  /** One turn of the loading loop: document `id` is indexed if it is shown. */
  method IndexOne(e: Indices, ds: map<DocId, Doc>, ghost done: set<DocId>, id: DocId)
    requires e.Valid() && id in ds && id !in done && HoldsExactly(e.State(), Shown(ds, done))
    modifies e.title, e.authors, e.keywords
    ensures e.Valid() && HoldsExactly(e.State(), Shown(ds, done + {id}))
  {
    LoadStep(e.State(), ds, done, id);
    var d := ds[id];
    if d.show {
      e.Insert(id, d.title, d.authors, d.keywords);
    }
  }

  /** The loop of `from_file`: the shown documents go into the empty engine, by ascending id. */
  method IndexShown(e: Indices, ds: map<DocId, Doc>)
    requires e.Valid() && HoldsExactly(e.State(), Shown(ds, {}))
    modifies e.title, e.authors, e.keywords
    ensures e.Valid() && HoldsExactly(e.State(), Shown(ds, ds.Keys))
  {
    var todo := ds.Keys;
    while todo != {}
      invariant todo <= ds.Keys
      invariant e.Valid() && HoldsExactly(e.State(), Shown(ds, ds.Keys - todo))
      decreases |todo|
    {
      var id := Least(todo);
      ghost var done := ds.Keys - todo;
      IndexOne(e, ds, done, id);
      todo := todo - {id};
      assert ds.Keys - todo == done + {id};
    }
    assert ds.Keys - todo == ds.Keys;
  }

  class Library {
    var docs: map<DocId, Doc>
    var last: nat
    const root: string
    const engine: Indices

    ghost predicate Valid()
      reads this, engine, engine.title, engine.authors, engine.keywords
    {
      engine.Valid()
    }

    /** Every stored id is below the counter, so the counter's next id is unused. */
    ghost predicate Fresh()
      reads this
    {
      forall id :: id in docs ==> id < last
    }

    /**
     * `from_file`, from the decoded index contents on: the documents and the counter are
     * taken as read, and every shown document, and no other, is indexed, in ascending id order.
     */
    constructor FromFile(root: string, docs: map<DocId, Doc>, last: nat)
      ensures this.root == root && this.docs == docs && this.last == last
      ensures Valid()
      ensures HoldsExactly(engine.State(), Shown(docs, docs.Keys))
    {
      this.root := root;
      this.docs := docs;
      this.last := last;
      engine := new Indices();
      new;
      HoldsNothing();
      assert Shown(docs, {}) == map[];
      IndexShown(engine, docs);
    }

    /**
     * `search`: the ids of the ten best-scoring documents of the engine, best first. Hidden
     * documents indexed at load time are still among the candidates.
     */
    method Search(text: string, ln: real -> real) returns (ids: seq<DocId>)
      requires Valid()
      ensures EngineValid(engine.State()) && TopIds(ids, Combined(engine.State(), text, ln), 10)
    {
      var hits := engine.Search(text, 10, ln);
      TopHitsIds(hits, Combined(engine.State(), text, ln), 10);
      ids := Ids(hits);
    }

    /** `get`: the document, if present and shown. */
    function Get(id: DocId): (r: Result<Doc, Error>)
      reads this
      ensures r.Ok? <==> id in docs && docs[id].show
      ensures r.Ok? ==> r.value == docs[id]
    {
      Lookup(docs, id)
    }

    /** `new_id`: hands out the counter and advances it. */
    method NewId() returns (id: DocId)
      modifies this
      ensures id == old(last) && last == old(last) + 1 && docs == old(docs)
      ensures old(Fresh()) ==> Fresh() && id !in docs
    {
      id := last;
      last := last + 1;
    }

    /**
     * `insert`: a new id is taken first, then the file is copied into the library directory;
     * a failed copy keeps the advanced counter and stores nothing. The document is not
     * indexed.
     */
    method Insert(doc: Doc, from: string, copy: (string, string) -> bool, saved: bool)
      returns (r: Result<(), Error>)
      modifies this
      ensures last == old(last) + 1
      ensures copy(from, Destination(root, doc)) ==> docs == old(docs)[old(last) := doc] && r == Persisted(saved)
      ensures !copy(from, Destination(root, doc)) ==> docs == old(docs) && r == Err(CopyFailed)
      ensures old(Fresh()) ==> Fresh() && old(last) !in old(docs)
    {
      var id := NewId();
      if !copy(from, Destination(root, doc)) {
        return Err(CopyFailed);
      }
      docs := docs[id := doc];
      r := Persisted(saved);
    }

    /** `remove`: the document is hidden, not deleted; a missing or hidden one is an error. */
    method Remove(id: DocId, saved: bool) returns (r: Result<(), Error>)
      modifies this
      ensures docs == Hide(old(docs), id) && last == old(last)
      ensures r == if Lookup(old(docs), id).Err? then Err(NotFound(id)) else Persisted(saved)
      ensures old(Fresh()) ==> Fresh()
    {
      var found := Get(id);
      if found.Err? {
        return Err(found.error);
      }
      docs := docs[id := found.value.(show := false)];
      r := Persisted(saved);
    }
  }
}
