/**
 * The three-field search engine (`Indices` in lbr-server/src/text/mod.rs): one trigram index
 * each for a document's title, authors and keywords. Inserting lower-cases the fields; searching
 * lower-cases the query, adds up the three field scores per document, orders the documents by
 * score, highest first, and keeps the first `limit`.
 */
module SearchEngine {
  import opened Text
  import opened GramIndex

  /** `Index<3>`: every field is indexed by trigrams. */
  const Width: nat := 3

  /** `text.to_lowercase().as_bytes()` / `.into_bytes()`. */
  function FieldBytes(s: string): seq<byte> {
    Utf8(Lower(s))
  }

  /** The lower-cased bytes of several strings, one text per string. */
  function AllFieldBytes(ss: seq<string>): seq<seq<byte>> {
    seq(|ss|, i requires 0 <= i < |ss| => FieldBytes(ss[i]))
  }

  datatype EngineState = EngineState(title: IndexState, authors: IndexState, keywords: IndexState)

  ghost predicate EngineValid(e: EngineState) {
    GramsValid(e.title.grams, Width) && GramsValid(e.authors.grams, Width) && GramsValid(e.keywords.grams, Width)
  }

  /** `insert`: the title as one text, every author and every keyword as a text of its own. */
  function EngineInserted(e: EngineState, id: DocId, title: string, authors: seq<string>, keywords: seq<string>): EngineState {
    EngineState(
      Inserted(e.title, id, Windows(FieldBytes(title), Width)),
      Inserted(e.authors, id, AllWindows(AllFieldBytes(authors), Width)),
      Inserted(e.keywords, id, AllWindows(AllFieldBytes(keywords), Width)))
  }

  /** `remove`: the same id leaves all three indexes. */
  function EngineRemoved(e: EngineState, id: DocId): EngineState
    requires EngineValid(e)
  {
    EngineState(Removed(e.title, id), Removed(e.authors, id), Removed(e.keywords, id))
  }

  /** The corrected `remove`: `id` is dropped from every gram of all three indexes. */
  function EnginePurged(e: EngineState, id: DocId): EngineState {
    EngineState(PurgedIndex(e.title, id), PurgedIndex(e.authors, id), PurgedIndex(e.keywords, id))
  }

  /** `*scores.entry(id).or_insert(0.0) += score` for every entry of `more`. */
  function Merge(scores: map<DocId, real>, more: map<DocId, real>): map<DocId, real> {
    PartialGram(scores, more, more.Keys)
  }

  /**
   * The three field score maps of a query, summed: a document is a candidate exactly when one
   * of the fields scored it.
   */
  function Combined(e: EngineState, text: string, ln: real -> real): (r: map<DocId, real>)
    requires EngineValid(e)
    ensures var q := Windows(FieldBytes(text), Width);
      r.Keys == Scores(e.title, q, ln).Keys + Scores(e.authors, q, ln).Keys + Scores(e.keywords, q, ln).Keys
  {
    var q := Windows(FieldBytes(text), Width);
    Merge(Merge(Scores(e.title, q, ln), Scores(e.authors, q, ln)), Scores(e.keywords, q, ln))
  }

  /**
   * Before ranking, a document is a candidate iff some field found it, and its score is the sum
   * of its field scores, a field that did not find it adding nothing.
   */
  lemma CombinedScore(e: EngineState, text: string, ln: real -> real, id: DocId)
    requires EngineValid(e)
    ensures var q := Windows(FieldBytes(text), Width);
      var t, a, k := Scores(e.title, q, ln), Scores(e.authors, q, ln), Scores(e.keywords, q, ln);
      (id in Combined(e, text, ln) <==> id in t || id in a || id in k) &&
      (id in Combined(e, text, ln) ==> Combined(e, text, ln)[id] == Get(t, id) + Get(a, id) + Get(k, id))
  {
    var q := Windows(FieldBytes(text), Width);
    var t, a, k := Scores(e.title, q, ln), Scores(e.authors, q, ln), Scores(e.keywords, q, ln);
    var ta := Merge(t, a);
    if id in a {
      PartialGramAt(t, a, a.Keys, id);
    }
    assert Get(ta, id) == Get(t, id) + Get(a, id);
    if id in k {
      PartialGramAt(ta, k, k.Keys, id);
    }
  }

  // ---------------------------------------------------------------------------------------
  // Ranking: `sort_by(|(_, s1), (_, s2)| s2.partial_cmp(s1).unwrap())` then `truncate(limit)`.

  type Hit = (DocId, real)

  function HitIds(hs: seq<Hit>): set<DocId> {
    set i | 0 <= i < |hs| :: hs[i].0
  }

  /** No document appears twice. */
  predicate DistinctIds(hs: seq<Hit>) {
    forall i, j :: 0 <= i < j < |hs| ==> hs[i].0 != hs[j].0
  }

  /** Ordered by score, highest first. */
  predicate Descending(hs: seq<Hit>) {
    forall i, j :: 0 <= i < j < |hs| ==> hs[i].1 >= hs[j].1
  }

  lemma HitIdsAppend(a: seq<Hit>, b: seq<Hit>)
    ensures HitIds(a + b) == HitIds(a) + HitIds(b)
  {
    var ab := a + b;
    forall x | x in HitIds(a) + HitIds(b)
      ensures x in HitIds(ab)
    {
      if x in HitIds(a) {
        var i :| 0 <= i < |a| && a[i].0 == x;
        assert ab[i] == a[i];
      } else {
        var i :| 0 <= i < |b| && b[i].0 == x;
        assert ab[|a| + i] == b[i];
      }
    }
  }

  lemma HitIdsSingle(h: Hit)
    ensures HitIds([h]) == {h.0}
  {
    assert [h][0] == h;
  }

  /** A hit's id is among the ids of any sequence holding the hit. */
  lemma HitIdsHas(hs: seq<Hit>, h: Hit)
    requires h in multiset(hs)
    ensures h.0 in HitIds(hs)
  {
    var i :| 0 <= i < |hs| && hs[i] == h;
  }

  /** Places `h` in front of the first hit that does not score more. */
  function InsertHit(h: Hit, hs: seq<Hit>): (r: seq<Hit>)
    ensures |r| == |hs| + 1
  {
    if hs == [] then [h]
    else if h.1 >= hs[0].1 then [h] + hs
    else [hs[0]] + InsertHit(h, hs[1..])
  }

  lemma {:induction false} InsertHitPermutes(h: Hit, hs: seq<Hit>)
    ensures multiset(InsertHit(h, hs)) == multiset(hs) + multiset{h}
    decreases |hs|
  {
    if hs != [] && h.1 < hs[0].1 {
      InsertHitPermutes(h, hs[1..]);
      assert hs == [hs[0]] + hs[1..];
    }
  }

  lemma {:induction false} InsertHitOrdered(h: Hit, hs: seq<Hit>)
    requires Descending(hs)
    ensures Descending(InsertHit(h, hs))
    decreases |hs|
  {
    if hs != [] && h.1 < hs[0].1 {
      var rest := InsertHit(h, hs[1..]);
      InsertHitOrdered(h, hs[1..]);
      InsertHitPermutes(h, hs[1..]);
      forall i | 0 <= i < |rest|
        ensures hs[0].1 >= rest[i].1
      {
        assert rest[i] in multiset(rest);
        if rest[i] != h {
          assert rest[i] in multiset(hs[1..]);
          var j :| 0 <= j < |hs[1..]| && hs[1..][j] == rest[i];
          assert hs[j + 1] == rest[i];
        }
      }
    }
  }

  lemma {:induction false} InsertHitDistinct(h: Hit, hs: seq<Hit>)
    requires DistinctIds(hs) && h.0 !in HitIds(hs)
    ensures DistinctIds(InsertHit(h, hs))
    decreases |hs|
  {
    if hs == [] {
    } else if h.1 >= hs[0].1 {
      ConsDistinct(h, hs);
    } else {
      var tail := hs[1..];
      assert hs == [hs[0]] + tail;
      HitIdsAppend([hs[0]], tail);
      HitIdsSingle(hs[0]);
      DistinctSplit(hs);
      var rest := InsertHit(h, tail);
      InsertHitDistinct(h, tail);
      InsertHitPermutes(h, tail);
      PermutedIds(rest, tail + [h]);
      HitIdsAppend(tail, [h]);
      HitIdsSingle(h);
      ConsDistinct(hs[0], rest);
    }
  }

  /** A hit whose id is new can go in front of distinct hits. */
  lemma ConsDistinct(h: Hit, hs: seq<Hit>)
    requires DistinctIds(hs) && h.0 !in HitIds(hs)
    ensures DistinctIds([h] + hs)
  {
    var r := [h] + hs;
    forall i, j | 0 <= i < j < |r|
      ensures r[i].0 != r[j].0
    {
      assert r[j] == hs[j - 1];
      if i == 0 {
        assert hs[j - 1].0 in HitIds(hs);
      } else {
        assert r[i] == hs[i - 1];
      }
    }
  }

  /** Permuting hits keeps their ids. */
  lemma PermutedIds(a: seq<Hit>, b: seq<Hit>)
    requires multiset(a) == multiset(b)
    ensures HitIds(a) == HitIds(b)
  {
    forall x | x in HitIds(a) ensures x in HitIds(b) {
      var i :| 0 <= i < |a| && a[i].0 == x;
      assert a[i] in multiset(a);
      HitIdsHas(b, a[i]);
    }
    forall x | x in HitIds(b) ensures x in HitIds(a) {
      var i :| 0 <= i < |b| && b[i].0 == x;
      assert b[i] in multiset(b);
      HitIdsHas(a, b[i]);
    }
  }

  /** The head of a list of distinct ids is not among the tail's, and the tail is distinct. */
  lemma DistinctSplit(hs: seq<Hit>)
    requires hs != [] && DistinctIds(hs)
    ensures DistinctIds(hs[1..]) && hs[0].0 !in HitIds(hs[1..])
  {
    var tail := hs[1..];
    forall i, j | 0 <= i < j < |tail|
      ensures tail[i].0 != tail[j].0
    {
      assert tail[i] == hs[i + 1] && tail[j] == hs[j + 1];
    }
    forall j | 0 <= j < |tail|
      ensures tail[j].0 != hs[0].0
    {
      assert tail[j] == hs[j + 1];
    }
  }

  /** The sort, by insertion. */
  function SortHits(hs: seq<Hit>): (r: seq<Hit>)
    ensures |r| == |hs|
  {
    if hs == [] then [] else InsertHit(hs[0], SortHits(hs[1..]))
  }

  /** Sorting permutes its input into descending score order and keeps ids distinct. */
  lemma {:induction false} SortHitsCorrect(hs: seq<Hit>)
    ensures multiset(SortHits(hs)) == multiset(hs)
    ensures Descending(SortHits(hs))
    ensures DistinctIds(hs) ==> DistinctIds(SortHits(hs))
    decreases |hs|
  {
    if hs != [] {
      var tail := hs[1..];
      assert hs == [hs[0]] + tail;
      SortHitsCorrect(tail);
      InsertHitPermutes(hs[0], SortHits(tail));
      InsertHitOrdered(hs[0], SortHits(tail));
      if DistinctIds(hs) {
        DistinctSplit(hs);
        PermutedIds(tail, SortHits(tail));
        InsertHitDistinct(hs[0], SortHits(tail));
      }
    }
  }

  function Min(a: nat, b: nat): nat { if a <= b then a else b }

  /**
   * What `search` returns for the candidate map `m`: at most `limit` hits, no id twice, each
   * with its candidate score, best first, and no candidate left out that scores more than one
   * kept.
   */
  ghost predicate TopHits(r: seq<Hit>, m: map<DocId, real>, limit: nat) {
    |r| == Min(limit, |m|) &&
    DistinctIds(r) &&
    (forall i :: 0 <= i < |r| ==> r[i].0 in m && r[i].1 == m[r[i].0]) &&
    Descending(r) &&
    (forall id, i :: id in m && id !in HitIds(r) && 0 <= i < |r| ==> m[id] <= r[i].1)
  }

  /** The hits of a map, one per key, in some order. */
  ghost predicate Listing(hs: seq<Hit>, m: map<DocId, real>) {
    |hs| == |m| && DistinctIds(hs) && HitIds(hs) == m.Keys &&
    forall i :: 0 <= i < |hs| ==> hs[i].0 in m && hs[i].1 == m[hs[i].0]
  }

  /** Sorting a listing and keeping a prefix gives the top hits. */
  lemma RankedListing(hs: seq<Hit>, m: map<DocId, real>, limit: nat)
    requires Listing(hs, m)
    ensures TopHits(SortHits(hs)[..Min(limit, |hs|)], m, limit)
  {
    var sorted := SortHits(hs);
    SortHitsCorrect(hs);
    var k := Min(limit, |hs|);
    SortedEntries(hs, sorted, m);
    PrefixKeeps(sorted, k);
    forall id, i | id in m && id !in HitIds(sorted[..k]) && 0 <= i < k
      ensures m[id] <= sorted[..k][i].1
    {
      SortedHasId(hs, sorted, m, id);
      var j := Beyond(sorted, k, id);
      assert sorted[..k][i] == sorted[i];
    }
  }

  /** A prefix of a distinct, descending sequence is distinct and descending. */
  lemma PrefixKeeps(hs: seq<Hit>, k: nat)
    requires k <= |hs| && DistinctIds(hs) && Descending(hs)
    ensures DistinctIds(hs[..k]) && Descending(hs[..k])
  {
    var r := hs[..k];
    assert forall i :: 0 <= i < k ==> r[i] == hs[i];
  }

  /** An id of the sequence that is not among the first `k` sits at or after position `k`. */
  lemma Beyond(hs: seq<Hit>, k: nat, id: DocId) returns (j: nat)
    requires k <= |hs| && id in HitIds(hs) && id !in HitIds(hs[..k])
    ensures k <= j < |hs| && hs[j].0 == id
  {
    forall i | 0 <= i < k
      ensures hs[i].0 != id
    {
      assert hs[..k][i] == hs[i];
      assert hs[..k][i].0 in HitIds(hs[..k]);
    }
    j :| 0 <= j < |hs| && hs[j].0 == id;
  }

  /** Every hit of a permuted listing carries its map score. */
  lemma SortedEntries(hs: seq<Hit>, sorted: seq<Hit>, m: map<DocId, real>)
    requires Listing(hs, m) && multiset(sorted) == multiset(hs)
    ensures forall i :: 0 <= i < |sorted| ==> sorted[i].0 in m && sorted[i].1 == m[sorted[i].0]
  {
    forall i | 0 <= i < |sorted|
      ensures sorted[i].0 in m && sorted[i].1 == m[sorted[i].0]
    {
      assert sorted[i] in multiset(sorted);
      var j :| 0 <= j < |hs| && hs[j] == sorted[i];
    }
  }

  /** Every key of the map is the id of some hit of a permuted listing. */
  lemma SortedHasId(hs: seq<Hit>, sorted: seq<Hit>, m: map<DocId, real>, id: DocId)
    requires Listing(hs, m) && multiset(sorted) == multiset(hs) && id in m
    ensures id in HitIds(sorted)
  {
    var j :| 0 <= j < |hs| && hs[j].0 == id;
    assert hs[j] in multiset(hs);
    HitIdsHas(sorted, hs[j]);
  }

  // ---------------------------------------------------------------------------------------

  /** `Indices`: three trigram indexes, one per field. */
  class Indices {
    const title: Index
    const authors: Index
    const keywords: Index

    ghost predicate Valid()
      reads this, title, authors, keywords
    {
      title != authors && title != keywords && authors != keywords &&
      title.n == Width && authors.n == Width && keywords.n == Width &&
      title.Valid() && authors.Valid() && keywords.Valid()
    }

    function State(): EngineState
      reads this, title, authors, keywords
    {
      EngineState(title.State(), authors.State(), keywords.State())
    }

    lemma StateValid()
      requires Valid()
      ensures EngineValid(State())
    {
    }

    /** `Indices::default()`: three empty indexes. */
    constructor ()
      ensures Valid() && fresh(title) && fresh(authors) && fresh(keywords)
      ensures State() == EngineState(EmptyIndex, EmptyIndex, EmptyIndex)
    {
      title := new Index(Width);
      authors := new Index(Width);
      keywords := new Index(Width);
    }

    /** `insert`: the lower-cased fields of document `id` go into their indexes. */
    method Insert(id: DocId, docTitle: string, docAuthors: seq<string>, docKeywords: seq<string>)
      requires Valid()
      modifies title, authors, keywords
      ensures Valid()
      ensures State() == EngineInserted(old(State()), id, docTitle, docAuthors, docKeywords)
    {
      title.Insert(id, FieldBytes(docTitle));
      authors.InsertMany(id, AllFieldBytes(docAuthors));
      keywords.InsertMany(id, AllFieldBytes(docKeywords));
    }

    /** `remove`: forwards `id` to the three indexes. */
    method Remove(id: DocId)
      requires Valid()
      modifies title, authors, keywords
      ensures Valid()
      ensures EngineValid(old(State())) && State() == EngineRemoved(old(State()), id)
    {
      title.Remove(id);
      authors.Remove(id);
      keywords.Remove(id);
    }

    /** The corrected `remove`: forwards `id` to the corrected removal of each index. */
    method Purge(id: DocId)
      requires Valid()
      modifies title, authors, keywords
      ensures Valid()
      ensures State() == EnginePurged(old(State()), id)
    {
      title.Purge(id);
      authors.Purge(id);
      keywords.Purge(id);
    }

    /**
     * `search`: the query is lower-cased and scored against every field; the summed scores are
     * ranked, best first, and cut to `limit` hits.
     */
    method Search(text: string, limit: nat, ln: real -> real) returns (hits: seq<Hit>)
      requires Valid()
      ensures EngineValid(State())
      ensures TopHits(hits, Combined(State(), text, ln), limit)
    {
      var q := FieldBytes(text);
      var scores := title.Search(q, ln);
      var more := authors.Search(q, ln);
      scores := AddScores(scores, more);
      more := keywords.Search(q, ln);
      scores := AddScores(scores, more);
      hits := Collect(scores);
      RankedListing(hits, scores, limit);
      hits := SortHits(hits);
      hits := hits[..Min(limit, |hits|)];
    }
  }

  /** The merge loop of `search`: every entry of `more` is added into `scores`. */
  method AddScores(start: map<DocId, real>, more: map<DocId, real>) returns (scores: map<DocId, real>)
    ensures scores == Merge(start, more)
  {
    PartialGramNone(start, more);
    scores := start;
    var todo := more.Keys;
    while todo != {}
      invariant todo <= more.Keys
      invariant scores == PartialGram(start, more, more.Keys - todo)
      decreases todo
    {
      var id :| id in todo;
      ghost var done := more.Keys - todo;
      PartialGramStep(start, more, done, id);
      var score := if id in scores then scores[id] else 0.0;
      scores := scores[id := score + more[id]];
      todo := todo - {id};
      assert more.Keys - todo == done + {id};
    }
    assert more.Keys - todo == more.Keys;
  }

  /** `scores.into_iter().collect()`: one hit per entry, in the map's own (unspecified) order. */
  method Collect(scores: map<DocId, real>) returns (hits: seq<Hit>)
    ensures Listing(hits, scores)
  {
    hits := [];
    var todo := scores.Keys;
    while todo != {}
      invariant todo <= scores.Keys
      invariant |hits| + |todo| == |scores|
      invariant PartialListing(hits, scores, scores.Keys - todo)
      decreases todo
    {
      var id :| id in todo;
      ListingStep(hits, scores, scores.Keys - todo, id);
      hits := hits + [(id, scores[id])];
      assert scores.Keys - (todo - {id}) == (scores.Keys - todo) + {id};
      todo := todo - {id};
    }
    assert scores.Keys - todo == scores.Keys;
  }

  /** The hits of the entries of `m` whose ids are `done`, one each. */
  ghost predicate PartialListing(hs: seq<Hit>, m: map<DocId, real>, done: set<DocId>) {
    DistinctIds(hs) && HitIds(hs) == done &&
    forall i :: 0 <= i < |hs| ==> hs[i].0 in m && hs[i].1 == m[hs[i].0]
  }

  /** Appending the hit of one more entry extends a partial listing. */
  lemma ListingStep(hs: seq<Hit>, m: map<DocId, real>, done: set<DocId>, id: DocId)
    requires PartialListing(hs, m, done) && id in m && id !in done
    ensures PartialListing(hs + [(id, m[id])], m, done + {id})
  {
    var h := (id, m[id]);
    HitIdsAppend(hs, [h]);
    HitIdsSingle(h);
    var r := hs + [h];
    forall i | 0 <= i < |hs|
      ensures r[i] == hs[i] && hs[i].0 != id
    {
      assert hs[i].0 in HitIds(hs);
    }
  }

  /**
   * Inserting a document and then searching for any piece of its title that is at least three
   * bytes long once lower-cased finds it among the candidates.
   */
  lemma InsertedTitleIsFound(e: EngineState, id: DocId, title: string, authors: seq<string>, keywords: seq<string>,
                             query: string, at: nat, ln: real -> real)
    requires EngineValid(e)
    requires at + |query| <= |title| && title[at..at + |query|] == query
    requires |FieldBytes(query)| >= Width
    ensures EngineValid(EngineInserted(e, id, title, authors, keywords))
    ensures id in Combined(EngineInserted(e, id, title, authors, keywords), query, ln)
  {
    var bytes := FieldBytes(title);
    var q := FieldBytes(query);
    var off := FieldBytesSlice(title, query, at);
    InsertedTextIsFound(e.title, Width, id, bytes, q, off, ln);
    var e' := EngineInserted(e, id, title, authors, keywords);
    AllWindowsLength(AllFieldBytes(authors), Width);
    AllWindowsLength(AllFieldBytes(keywords), Width);
    AddAllValid(e.authors.grams, id, AllWindows(AllFieldBytes(authors), Width), Width);
    AddAllValid(e.keywords.grams, id, AllWindows(AllFieldBytes(keywords), Width), Width);
    CombinedScore(e', query, ln, id);
  }

  /** A piece of a field, lower-cased and encoded, is a slice of the whole field's bytes. */
  lemma FieldBytesSlice(text: string, piece: string, at: nat) returns (off: nat)
    requires at + |piece| <= |text| && text[at..at + |piece|] == piece
    ensures off + |FieldBytes(piece)| <= |FieldBytes(text)|
    ensures FieldBytes(text)[off..off + |FieldBytes(piece)|] == FieldBytes(piece)
  {
    var pre, post := text[..at], text[at + |piece|..];
    assert text == pre + piece + post;
    LowerAppend(pre + piece, post);
    LowerAppend(pre, piece);
    Utf8Append(Lower(pre) + Lower(piece), Lower(post));
    Utf8Append(Lower(pre), Lower(piece));
    var q := FieldBytes(piece);
    off := |Utf8(Lower(pre))|;
    assert FieldBytes(text) == Utf8(Lower(pre)) + q + Utf8(Lower(post));
  }

  // ---------------------------------------------------------------------------------------
  // What a library's engine holds, and what a library's `search` hands back.

  /** The fields one document gives the engine. */
  datatype Fields = Fields(title: string, authors: seq<string>, keywords: seq<string>)

  /** The three indexes of the engine. */
  datatype Field = Title | Authors | Keywords

  /** The grams a document's field gives its index. */
  function FieldGrams(f: Fields, k: Field): seq<Gram> {
    match k
    case Title => Windows(FieldBytes(f.title), Width)
    case Authors => AllWindows(AllFieldBytes(f.authors), Width)
    case Keywords => AllWindows(AllFieldBytes(f.keywords), Width)
  }

  /**
   * One index holds exactly the documents of `fs`: it counts `|fs|` documents, a document of
   * `fs` holds each gram as often as its field has it, and any other id holds no gram at all.
   */
  ghost predicate FieldHolds(s: IndexState, fs: map<DocId, Fields>, k: Field) {
    s.totalDocs == |fs| &&
    forall id, g :: CountIn(s.grams, id, g) == if id in fs then multiset(FieldGrams(fs[id], k))[g] else 0
  }

  /** The engine holds exactly the documents of `fs`, in all three indexes. */
  ghost predicate HoldsExactly(e: EngineState, fs: map<DocId, Fields>) {
    FieldHolds(e.title, fs, Title) && FieldHolds(e.authors, fs, Authors) && FieldHolds(e.keywords, fs, Keywords)
  }

  /** A new engine holds no document. */
  lemma HoldsNothing()
    ensures HoldsExactly(EngineState(EmptyIndex, EmptyIndex, EmptyIndex), map[])
  {
  }

  lemma FieldInsert(s: IndexState, fs: map<DocId, Fields>, id: DocId, f: Fields, k: Field)
    requires FieldHolds(s, fs, k) && id !in fs
    ensures FieldHolds(Inserted(s, id, FieldGrams(f, k)), fs[id := f], k)
  {
    var after := Inserted(s, id, FieldGrams(f, k));
    var fs' := fs[id := f];
    forall other, g
      ensures CountIn(after.grams, other, g) == if other in fs' then multiset(FieldGrams(fs'[other], k))[g] else 0
    {
      AddAllCount(s.grams, id, FieldGrams(f, k), g, other);
    }
  }

  /** Inserting a document the engine does not hold adds exactly that document. */
  lemma HoldsInsert(e: EngineState, fs: map<DocId, Fields>, id: DocId, f: Fields)
    requires HoldsExactly(e, fs) && id !in fs
    ensures HoldsExactly(EngineInserted(e, id, f.title, f.authors, f.keywords), fs[id := f])
  {
    FieldInsert(e.title, fs, id, f, Title);
    FieldInsert(e.authors, fs, id, f, Authors);
    FieldInsert(e.keywords, fs, id, f, Keywords);
  }

  lemma FieldPurge(s: IndexState, fs: map<DocId, Fields>, id: DocId, k: Field)
    requires FieldHolds(s, fs, k) && id in fs
    ensures FieldHolds(PurgedIndex(s, id), fs - {id}, k)
  {
    var after := PurgedIndex(s, id);
    var fs' := fs - {id};
    assert |fs'| == |fs| - 1;
    forall other, g
      ensures CountIn(after.grams, other, g) == if other in fs' then multiset(FieldGrams(fs'[other], k))[g] else 0
    {
      PurgedAt(s.grams, id, g);
      assert CountIn(s.grams, other, g) == if other in fs then multiset(FieldGrams(fs[other], k))[g] else 0;
      assert CountIn(after.grams, other, g) == if other == id then 0 else CountIn(s.grams, other, g);
    }
  }

  /** The corrected removal of a document the engine holds leaves exactly the others. */
  lemma HoldsPurge(e: EngineState, fs: map<DocId, Fields>, id: DocId)
    requires HoldsExactly(e, fs) && id in fs
    ensures HoldsExactly(EnginePurged(e, id), fs - {id})
  {
    FieldPurge(e.title, fs, id, Title);
    FieldPurge(e.authors, fs, id, Authors);
    FieldPurge(e.keywords, fs, id, Keywords);
  }

  /** After the corrected removal, no query finds the removed document. */
  lemma PurgedNotFound(e: EngineState, id: DocId, text: string, ln: real -> real)
    requires EngineValid(e)
    ensures EngineValid(EnginePurged(e, id))
    ensures id !in Combined(EnginePurged(e, id), text, ln)
  {
    var p := EnginePurged(e, id);
    PurgedEffect(e.title.grams, id, Width);
    PurgedEffect(e.authors.grams, id, Width);
    PurgedEffect(e.keywords.grams, id, Width);
    var q := Windows(FieldBytes(text), Width);
    PurgedMisses(e.title, id, q, ln);
    PurgedMisses(e.authors, id, q, ln);
    PurgedMisses(e.keywords, id, q, ln);
    CombinedScore(p, text, ln, id);
  }

  lemma PurgedMisses(s: IndexState, id: DocId, q: seq<Gram>, ln: real -> real)
    requires forall g :: g in s.grams ==> s.grams[g].Valid()
    ensures forall g :: g in PurgedIndex(s, id).grams ==> PurgedIndex(s, id).grams[g].Valid()
    ensures id !in Scores(PurgedIndex(s, id), q, ln)
  {
    var p := PurgedIndex(s, id);
    forall g | g in p.grams
      ensures p.grams[g].Valid() && id !in p.grams[g].freqs
    {
      PurgedAt(s.grams, id, g);
    }
    ScoresKeys(p, q, ln, id);
  }

  /** "aaaa" is ASCII lower case, so its title grams are "aaa" twice, and "aaa"'s is "aaa" once. */
  lemma AaaGrams()
    ensures FieldGrams(Fields("aaaa", [], []), Title) == [[97, 97, 97], [97, 97, 97]]
    ensures Windows(FieldBytes("aaa"), Width) == [[97, 97, 97]]
    ensures FieldGrams(Fields("aaaa", [], []), Authors) == [] && FieldGrams(Fields("aaaa", [], []), Keywords) == []
  {
    assert Lower("aaaa") == "aaaa";
    assert Lower("aaa") == "aaa";
    assert Utf8("a") == [97];
    assert "aa"[1..] == "a";
    assert Utf8("aa") == [97, 97];
    assert "aaa"[1..] == "aa";
    assert Utf8("aaa") == [97, 97, 97];
    assert "aaaa"[1..] == "aaa";
    var t: seq<byte> := [97, 97, 97, 97];
    var g: seq<byte> := [97, 97, 97];
    assert FieldBytes("aaaa") == t && FieldBytes("aaa") == g;
    var ws := Windows(t, Width);
    assert |ws| == 2 && ws[0] == t[0..3] == g && ws[1] == t[1..4] == g;
    assert ws == [g, g];
    var wq := Windows(g, Width);
    assert |wq| == 1 && wq[0] == g[0..3] == g;
    assert wq == [g];
    assert AllFieldBytes([]) == [];
  }

  /** The engine after inserting document 0 titled "aaaa" holds exactly that document. */
  lemma AaaHolds(e: EngineState)
    requires e == EngineInserted(EngineState(EmptyIndex, EmptyIndex, EmptyIndex), 0, "aaaa", [], [])
    ensures HoldsExactly(e, map[0 := Fields("aaaa", [], [])])
  {
    var f := Fields("aaaa", [], []);
    HoldsNothing();
    HoldsInsert(EngineState(EmptyIndex, EmptyIndex, EmptyIndex), map[], 0, f);
    assert map[][0 := f] == map[0 := f];
  }

  /** ... and holds "aaa" twice for it, in a valid engine. */
  lemma AaaInserted(e: EngineState)
    requires e == EngineInserted(EngineState(EmptyIndex, EmptyIndex, EmptyIndex), 0, "aaaa", [], [])
    ensures EngineValid(e) && HoldsExactly(e, map[0 := Fields("aaaa", [], [])])
    ensures CountIn(e.title.grams, 0, [97, 97, 97]) == 2
  {
    var f := Fields("aaaa", [], []);
    var g: Gram := [97, 97, 97];
    AaaGrams();
    AaaHolds(e);
    AaaValid(e);
    assert multiset(FieldGrams(f, Title))[g] == 2 by {
      assert FieldGrams(f, Title) == [g, g];
    }
  }

  lemma AaaValid(e: EngineState)
    requires e == EngineInserted(EngineState(EmptyIndex, EmptyIndex, EmptyIndex), 0, "aaaa", [], [])
    ensures EngineValid(e)
  {
    AaaGrams();
    AddAllValid(map[], 0, FieldGrams(Fields("aaaa", [], []), Title), Width);
  }

  /**
   * As written, `remove` takes one occurrence off each gram, so a document whose title holds a
   * gram twice ("aaaa" holds "aaa" at two places) is still a candidate for that gram after it
   * was removed.
   */
  lemma RemoveLeavesResidue(ln: real -> real)
    ensures var e := EngineInserted(EngineState(EmptyIndex, EmptyIndex, EmptyIndex), 0, "aaaa", [], []);
      EngineValid(e) && HoldsExactly(e, map[0 := Fields("aaaa", [], [])]) &&
      EngineValid(EngineRemoved(e, 0)) && 0 in Combined(EngineRemoved(e, 0), "aaa", ln)
  {
    var e := EngineInserted(EngineState(EmptyIndex, EmptyIndex, EmptyIndex), 0, "aaaa", [], []);
    AaaInserted(e);
    AaaGrams();
    var g: Gram := [97, 97, 97];
    var r := EngineRemoved(e, 0);
    RemovedEffect(e.title.grams, 0, Width);
    RemovedEffect(e.authors.grams, 0, Width);
    RemovedEffect(e.keywords.grams, 0, Width);
    assert CountIn(r.title.grams, 0, g) == 1;
    var q := Windows(FieldBytes("aaa"), Width);
    assert q[0] == g && g in r.title.grams && 0 in r.title.grams[g].freqs;
    ScoresKeys(r.title, q, ln, 0);
    CombinedScore(r, "aaa", ln, 0);
  }

  /** The ids of a ranking, in order (`.map(|(id, _)| id)`). */
  function Ids(hs: seq<Hit>): seq<DocId> {
    seq(|hs|, i requires 0 <= i < |hs| => hs[i].0)
  }

  /**
   * What a library's `search` returns for the candidate scores `m`: at most `limit` distinct
   * candidates, best first, and no candidate left out that scores more than one returned.
   */
  ghost predicate TopIds(ids: seq<DocId>, m: map<DocId, real>, limit: nat) {
    |ids| == Min(limit, |m|) &&
    (forall i, j :: 0 <= i < j < |ids| ==> ids[i] != ids[j]) &&
    (forall i :: 0 <= i < |ids| ==> ids[i] in m) &&
    (forall i, j :: 0 <= i < j < |ids| ==> m[ids[i]] >= m[ids[j]]) &&
    (forall id, i :: id in m && id !in ids && 0 <= i < |ids| ==> m[id] <= m[ids[i]])
  }

  /** Dropping the scores of the top hits leaves the top ids. */
  lemma TopHitsIds(hs: seq<Hit>, m: map<DocId, real>, limit: nat)
    requires TopHits(hs, m, limit)
    ensures TopIds(Ids(hs), m, limit)
  {
    var ids := Ids(hs);
    forall id | id in HitIds(hs) ensures id in ids {
      var i :| 0 <= i < |hs| && hs[i].0 == id;
      assert ids[i] == id;
    }
  }
}
