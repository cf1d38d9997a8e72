/**
 * The n-gram inverted index of one text field (`Index<N>` and `Freqs` in
 * lbr-server/src/text/index.rs). For every gram (a window of `n` bytes) the index keeps how often
 * each document contains it and the largest such count; searching a query adds, for every window
 * of the query and every document holding that window, a normalised term frequency times an
 * inverse document frequency.
 *
 * Counts and the document counter are unbounded integers (the source keeps them in `f32`, which
 * is exact for them only below 2^24); scores are reals; the natural logarithm is a parameter `ln`.
 */
module GramIndex {
  import opened Text

  type DocId = nat
  type Gram = seq<byte>

  /** A non-empty set of ids has a smallest one. */
  lemma {:induction false} LeastOf(s: set<DocId>) returns (m: DocId)
    requires s != {}
    ensures m in s && forall o :: o in s ==> m <= o
    decreases |s|
  {
    var x :| x in s;
    var rest := s - {x};
    if rest == {} {
      assert s == {x};
      return x;
    }
    var r := LeastOf(rest);
    m := if x < r then x else r;
    forall o | o in s
      ensures m <= o
    {
      if o != x {
        assert o in rest;
      }
    }
  }

  lemma LeastExists(s: set<DocId>)
    requires s != {}
    ensures exists m :: m in s && forall o :: o in s ==> m <= o
  {
    var m := LeastOf(s);
  }

  /** The smallest id of a set: where a `BTreeMap` keyed by ids starts iterating. */
  function Least(s: set<DocId>): (m: DocId)
    requires s != {}
    ensures m in s && forall o :: o in s ==> m <= o
  {
    LeastExists(s);
    var m :| m in s && forall o :: o in s ==> m <= o; m
  }

  function Max(a: nat, b: nat): nat { if a >= b then a else b }

  /** `Freqs`: occurrence count per document, and the largest count this gram has reached. */
  datatype Freqs = Freqs(freqs: map<DocId, nat>, maxFreq: nat) {

    /** No zero count is stored, and `maxFreq` bounds every count. */
    ghost predicate Valid() {
      forall id :: id in freqs ==> 1 <= freqs[id] <= maxFreq
    }

    function Count(id: DocId): nat {
      if id in freqs then freqs[id] else 0
    }

    /** `ids`: the documents holding the gram. */
    function Ids(): (r: set<DocId>)
      ensures Valid() ==> r == set id | id in freqs && Count(id) > 0
    {
      freqs.Keys
    }

    /** `docs`: the number of documents holding the gram. */
    function Docs(): (d: nat)
      ensures Valid() ==> d == |set id | id in freqs && Count(id) > 0|
    {
      assert Valid() ==> freqs.Keys == set id | id in freqs && Count(id) > 0;
      |freqs|
    }

    /** `freq`: the normalised term frequency `0.5 + 0.5 * (count / maxFreq)`. */
    function Weight(id: DocId): (w: real)
      requires maxFreq > 0
      ensures Valid() && id in freqs ==> 0.5 < w <= 1.0
      ensures id !in freqs ==> w == 0.5
    {
      var c, m := Count(id) as real, maxFreq as real;
      assert Valid() && id in freqs ==> 0.0 < c / m <= 1.0 by {
        if Valid() && id in freqs { RatioBounds(c, m); }
      }
      0.5 + 0.5 * (c / m)
    }

    /** `increase`: one more occurrence for `id`; `maxFreq` follows the new count upwards. */
    function Increase(id: DocId): (r: Freqs)
      ensures r.Count(id) == Count(id) + 1
      ensures forall other :: other != id ==> r.Count(other) == Count(other)
      ensures r.Ids() == Ids() + {id}
      ensures r.maxFreq == Max(maxFreq, r.Count(id))
      ensures Valid() ==> r.Valid()
    {
      var c := Count(id) + 1;
      Freqs(freqs[id := c], if c > maxFreq then c else maxFreq)
    }

    /**
     * `decrease`: one occurrence fewer for `id`; an entry at 1 is deleted, an absent id is left
     * alone, and `maxFreq` is never lowered.
     */
    function Decrease(id: DocId): (r: Freqs)
      requires Valid()
      ensures r.Valid()
      ensures r.Count(id) == if Count(id) > 0 then Count(id) - 1 else 0
      ensures forall other :: other != id ==> r.Count(other) == Count(other)
      ensures r.Ids() == if Count(id) == 1 then Ids() - {id} else Ids()
      ensures r.maxFreq == maxFreq
    {
      if id in freqs then
        if freqs[id] == 1 then Freqs(freqs - {id}, maxFreq)
        else Freqs(freqs[id := freqs[id] - 1], maxFreq)
      else this
    }

    /**
     * The corrected `decrease` for a document being removed: its entry goes whatever its
     * count, so the document no longer holds the gram at all.
     */
    function Drop(id: DocId): (r: Freqs)
      ensures r.Count(id) == 0
      ensures forall other :: other != id ==> r.Count(other) == Count(other)
      ensures r.Ids() == Ids() - {id}
      ensures r.maxFreq == maxFreq
      ensures Valid() ==> r.Valid()
    {
      Freqs(freqs - {id}, maxFreq)
    }
  }

  lemma RatioBounds(c: real, m: real)
    requires 0.0 < c <= m
    ensures 0.0 < c / m <= 1.0
  {
    assert c / m * m == c;
  }

  const NoFreqs := Freqs(map[], 0)

  /** The windows `text.windows(n)` yields: every `n` consecutive bytes, left to right. */
  function Windows(text: seq<byte>, n: nat): (ws: seq<Gram>)
    requires n > 0
    ensures |text| < n ==> ws == []
    ensures |text| >= n ==> |ws| == |text| - n + 1
    ensures forall i :: 0 <= i < |ws| ==> ws[i] == text[i..i + n]
  {
    if |text| < n then [] else seq(|text| - n + 1, i requires 0 <= i <= |text| - n => text[i..i + n])
  }

  /** The windows of several texts, each text windowed on its own, in order. */
  function AllWindows(texts: seq<seq<byte>>, n: nat): seq<Gram>
    requires n > 0
  {
    if texts == [] then [] else AllWindows(texts[..|texts| - 1], n) + Windows(texts[|texts| - 1], n)
  }

  /** No window of `AllWindows` spans two texts: each is a window of one text. */
  lemma {:induction false} AllWindowsMembers(texts: seq<seq<byte>>, n: nat, w: Gram)
    requires n > 0
    ensures w in AllWindows(texts, n) <==> exists i :: 0 <= i < |texts| && w in Windows(texts[i], n)
  {
    if texts != [] {
      var front, last := texts[..|texts| - 1], texts[|texts| - 1];
      assert AllWindows(texts, n) == AllWindows(front, n) + Windows(last, n);
      assert w in AllWindows(texts, n) <==> w in AllWindows(front, n) || w in Windows(last, n);
      AllWindowsMembers(front, n, w);
      assert forall i :: 0 <= i < |front| ==> texts[i] == front[i];
    }
  }

  /** Every window of `AllWindows` is `n` bytes long. */
  lemma {:induction false} AllWindowsLength(texts: seq<seq<byte>>, n: nat)
    requires n > 0
    ensures forall i :: 0 <= i < |AllWindows(texts, n)| ==> |AllWindows(texts, n)[i]| == n
  {
    if texts != [] {
      AllWindowsLength(texts[..|texts| - 1], n);
    }
  }

  /** A single text windowed through `AllWindows` gives its own windows. */
  lemma AllWindowsSingle(t: seq<byte>, n: nat)
    requires n > 0
    ensures AllWindows([t], n) == Windows(t, n)
  {
    assert [t][..0] == [];
  }

  // ---------------------------------------------------------------------------------------
  // The index as a value: the gram map and the document counter.

  datatype IndexState = IndexState(grams: map<Gram, Freqs>, totalDocs: int)

  const EmptyIndex := IndexState(map[], 0)

  /** The invariant every index keeps: grams are `n` bytes long and every `Freqs` is valid. */
  ghost predicate GramsValid(grams: map<Gram, Freqs>, n: nat) {
    forall g :: g in grams ==> |g| == n && grams[g].Valid()
  }

  function Entry(grams: map<Gram, Freqs>, g: Gram): Freqs {
    if g in grams then grams[g] else NoFreqs
  }

  /** How often document `id` contains gram `g`. */
  function CountIn(grams: map<Gram, Freqs>, id: DocId, g: Gram): nat {
    Entry(grams, g).Count(id)
  }

  /** `grams.entry(g).or_insert_with(Freqs::default).increase(id)`. */
  function Bump(grams: map<Gram, Freqs>, id: DocId, g: Gram): map<Gram, Freqs> {
    grams[g := Entry(grams, g).Increase(id)]
  }

  /** Bumping `id` once for every window in `ws`, in order. */
  function AddAll(grams: map<Gram, Freqs>, id: DocId, ws: seq<Gram>): map<Gram, Freqs>
    decreases |ws|
  {
    if ws == [] then grams else Bump(AddAll(grams, id, ws[..|ws| - 1]), id, ws[|ws| - 1])
  }

  lemma AddAllSnoc(grams: map<Gram, Freqs>, id: DocId, ws: seq<Gram>, w: Gram)
    ensures AddAll(grams, id, ws + [w]) == Bump(AddAll(grams, id, ws), id, w)
  {
    assert (ws + [w])[..|ws|] == ws;
  }

  /** One more window: the loop step of `insert`. */
  lemma AddAllStep(start: map<Gram, Freqs>, id: DocId, ws: seq<Gram>, i: nat)
    requires i < |ws|
    ensures AddAll(start, id, ws[..i + 1]) == Bump(AddAll(start, id, ws[..i]), id, ws[i])
  {
    assert ws[..i + 1] == ws[..i] + [ws[i]];
    AddAllSnoc(start, id, ws[..i], ws[i]);
  }

  lemma {:induction false} AddAllAppend(start: map<Gram, Freqs>, id: DocId, xs: seq<Gram>, ys: seq<Gram>)
    ensures AddAll(start, id, xs + ys) == AddAll(AddAll(start, id, xs), id, ys)
    decreases |ys|
  {
    if ys == [] {
      assert xs + ys == xs;
    } else {
      var front, w := ys[..|ys| - 1], ys[|ys| - 1];
      assert xs + ys == (xs + front) + [w];
      AddAllSnoc(start, id, xs + front, w);
      AddAllAppend(start, id, xs, front);
      assert ys == front + [w];
      AddAllSnoc(AddAll(start, id, xs), id, front, w);
    }
  }

  /** The grams occurring in `ws`. */
  function Members(ws: seq<Gram>): set<Gram> {
    set w | w in ws
  }

  lemma MembersSnoc(ws: seq<Gram>)
    requires ws != []
    ensures Members(ws) == Members(ws[..|ws| - 1]) + {ws[|ws| - 1]}
  {
    assert ws == ws[..|ws| - 1] + [ws[|ws| - 1]];
  }

  /** Adding the windows `ws` keeps the invariant and adds the windows as keys. */
  lemma {:induction false} AddAllValid(grams: map<Gram, Freqs>, id: DocId, ws: seq<Gram>, n: nat)
    requires GramsValid(grams, n)
    requires forall i :: 0 <= i < |ws| ==> |ws[i]| == n
    ensures GramsValid(AddAll(grams, id, ws), n)
    ensures AddAll(grams, id, ws).Keys == grams.Keys + Members(ws)
    decreases |ws|
  {
    if ws != [] {
      var front, w := ws[..|ws| - 1], ws[|ws| - 1];
      assert forall i :: 0 <= i < |front| ==> front[i] == ws[i];
      AddAllValid(grams, id, front, n);
      BumpValid(AddAll(grams, id, front), id, w, n);
      MembersSnoc(ws);
    }
  }

  /** Bumping one `n`-byte gram keeps the invariant and adds the gram as a key. */
  lemma BumpValid(grams: map<Gram, Freqs>, id: DocId, w: Gram, n: nat)
    requires GramsValid(grams, n) && |w| == n
    ensures GramsValid(Bump(grams, id, w), n)
    ensures Bump(grams, id, w).Keys == grams.Keys + {w}
  {
    var f := Entry(grams, w);
    assert f.Valid();
  }


  /**
   * Adding the windows `ws` for `id` raises `id`'s count of gram `g` by the number of windows
   * equal to `g`, leaves every other document's count of `g` alone, and never lowers the
   * gram's `maxFreq`.
   */
  lemma {:induction false} AddAllCount(grams: map<Gram, Freqs>, id: DocId, ws: seq<Gram>, g: Gram, other: DocId)
    ensures CountIn(AddAll(grams, id, ws), id, g) == CountIn(grams, id, g) + multiset(ws)[g]
    ensures other != id ==> CountIn(AddAll(grams, id, ws), other, g) == CountIn(grams, other, g)
    ensures Entry(AddAll(grams, id, ws), g).maxFreq >= Entry(grams, g).maxFreq
    decreases |ws|
  {
    if ws != [] {
      var front, w := ws[..|ws| - 1], ws[|ws| - 1];
      assert ws == front + [w];
      AddAllCount(grams, id, front, g, other);
      assert multiset(ws) == multiset(front) + multiset{w};
    }
  }

  /** `insert`/`insert_many`: the windows are added for `id` and one document is counted. */
  function Inserted(s: IndexState, id: DocId, ws: seq<Gram>): IndexState {
    IndexState(AddAll(s.grams, id, ws), s.totalDocs + 1)
  }

  /** `remove`: every gram's `Freqs` is decreased once for `id`. */
  function Decreased(grams: map<Gram, Freqs>, id: DocId): (r: map<Gram, Freqs>)
    requires forall g :: g in grams ==> grams[g].Valid()
    ensures r.Keys == grams.Keys
  {
    map g | g in grams :: grams[g].Decrease(id)
  }

  lemma DecreasedAll(before: map<Gram, Freqs>, after: map<Gram, Freqs>, id: DocId)
    requires PartlyDecreased(before, after, id, {})
    ensures after == Decreased(before, id)
  {
    var d := Decreased(before, id);
    forall g | g in after
      ensures after[g] == d[g]
    {
      DecreasedAt(before, id, g);
    }
    MapsEqual(after, d);
  }

  function Removed(s: IndexState, id: DocId): IndexState
    requires forall g :: g in s.grams ==> s.grams[g].Valid()
  {
    IndexState(Decreased(s.grams, id), s.totalDocs - 1)
  }

  /**
   * Removing `id` takes exactly one occurrence off each of its grams (a gram it held `k > 1`
   * times keeps `k - 1`), touches no other document and no `maxFreq`, and keeps the invariant.
   */
  lemma RemovedEffect(grams: map<Gram, Freqs>, id: DocId, n: nat)
    requires GramsValid(grams, n)
    ensures GramsValid(Decreased(grams, id), n)
    ensures forall g :: CountIn(Decreased(grams, id), id, g) == if CountIn(grams, id, g) > 0 then CountIn(grams, id, g) - 1 else 0
    ensures forall other, g :: other != id ==> CountIn(Decreased(grams, id), other, g) == CountIn(grams, other, g)
    ensures forall g :: g in grams ==> Decreased(grams, id)[g].maxFreq == grams[g].maxFreq
  {
    forall g
      ensures CountIn(Decreased(grams, id), id, g) == if CountIn(grams, id, g) > 0 then CountIn(grams, id, g) - 1 else 0
      ensures forall other :: other != id ==> CountIn(Decreased(grams, id), other, g) == CountIn(grams, other, g)
      ensures g in grams ==> Decreased(grams, id)[g] == grams[g].Decrease(id)
    {
      DecreasedAt(grams, id, g);
    }
  }

  /** `remove` part way: the grams outside `todo` are decreased, those in it untouched. */
  ghost predicate PartlyDecreased(before: map<Gram, Freqs>, now: map<Gram, Freqs>, id: DocId, todo: set<Gram>) {
    (forall g :: g in before ==> before[g].Valid()) &&
    todo <= now.Keys && now.Keys == before.Keys &&
    (forall g :: g in now && g !in todo ==> now[g] == before[g].Decrease(id)) &&
    (forall g :: g in todo ==> now[g] == before[g])
  }

  lemma DecreaseStep(before: map<Gram, Freqs>, now: map<Gram, Freqs>, id: DocId, todo: set<Gram>, g: Gram)
    requires PartlyDecreased(before, now, id, todo) && g in todo
    ensures now[g].Valid()
    ensures PartlyDecreased(before, now[g := now[g].Decrease(id)], id, todo - {g})
  {
  }

  lemma MapsEqual<K, V>(a: map<K, V>, b: map<K, V>)
    requires a.Keys == b.Keys && forall k :: k in a ==> a[k] == b[k]
    ensures a == b
  {
  }

  /** The effect of `remove` on the entry of one gram. */
  lemma DecreasedAt(grams: map<Gram, Freqs>, id: DocId, g: Gram)
    requires forall g :: g in grams ==> grams[g].Valid()
    ensures Entry(Decreased(grams, id), g) == if g in grams then grams[g].Decrease(id) else NoFreqs
  {
  }

  /** The corrected `remove`: every gram's entry for `id` is dropped. */
  function Purged(grams: map<Gram, Freqs>, id: DocId): (r: map<Gram, Freqs>)
    ensures r.Keys == grams.Keys
  {
    map g | g in grams :: grams[g].Drop(id)
  }

  function PurgedIndex(s: IndexState, id: DocId): IndexState {
    IndexState(Purged(s.grams, id), s.totalDocs - 1)
  }

  /** After the corrected `remove`, `id` holds no gram; other documents and the invariant stay. */
  lemma PurgedEffect(grams: map<Gram, Freqs>, id: DocId, n: nat)
    requires GramsValid(grams, n)
    ensures GramsValid(Purged(grams, id), n)
    ensures forall g :: CountIn(Purged(grams, id), id, g) == 0
    ensures forall other, g :: other != id ==> CountIn(Purged(grams, id), other, g) == CountIn(grams, other, g)
  {
    forall g
      ensures CountIn(Purged(grams, id), id, g) == 0
      ensures forall other :: other != id ==> CountIn(Purged(grams, id), other, g) == CountIn(grams, other, g)
    {
      PurgedAt(grams, id, g);
    }
  }

  lemma PurgedAt(grams: map<Gram, Freqs>, id: DocId, g: Gram)
    ensures Entry(Purged(grams, id), g) == if g in grams then grams[g].Drop(id) else NoFreqs
  {
  }

  /** The corrected `remove` part way: the grams outside `todo` are dropped, those in it untouched. */
  ghost predicate PartlyPurged(before: map<Gram, Freqs>, now: map<Gram, Freqs>, id: DocId, todo: set<Gram>) {
    todo <= now.Keys && now.Keys == before.Keys &&
    (forall g :: g in now && g !in todo ==> now[g] == before[g].Drop(id)) &&
    (forall g :: g in todo ==> now[g] == before[g])
  }

  lemma PurgedAll(before: map<Gram, Freqs>, after: map<Gram, Freqs>, id: DocId)
    requires PartlyPurged(before, after, id, {})
    ensures after == Purged(before, id)
  {
    var d := Purged(before, id);
    forall g | g in after
      ensures after[g] == d[g]
    {
      PurgedAt(before, id, g);
    }
    MapsEqual(after, d);
  }

  // ---------------------------------------------------------------------------------------
  // Scoring.

  /**
   * `ln(total_docs / max(docs, 1))`, the inverse document frequency of one gram; a gram held by
   * at most one document is worth `ln(total_docs)`.
   */
  function Idf(totalDocs: int, f: Freqs, ln: real -> real): (r: real)
    ensures f.Docs() <= 1 ==> r == ln(totalDocs as real)
  {
    assert totalDocs as real / 1 as real == totalDocs as real;
    ln(totalDocs as real / (if f.Docs() > 1 then f.Docs() else 1) as real)
  }

  /** For an increasing logarithm, a gram held by fewer documents is worth at least as much. */
  lemma IdfRarer(totalDocs: int, f: Freqs, g: Freqs, ln: real -> real)
    requires totalDocs > 0 && f.Docs() <= g.Docs()
    requires forall x: real, y: real :: 0.0 < x <= y ==> ln(x) <= ln(y)
    ensures Idf(totalDocs, g, ln) <= Idf(totalDocs, f, ln)
  {
    var t := totalDocs as real;
    var a := (if f.Docs() > 1 then f.Docs() else 1) as real;
    var b := (if g.Docs() > 1 then g.Docs() else 1) as real;
    assert 0.0 < a <= b;
    DivAntitone(t, a, b);
  }

  lemma DivAntitone(t: real, a: real, b: real)
    requires t > 0.0 && 0.0 < a <= b
    ensures 0.0 < t / b <= t / a
  {
    var q := t / a;
    assert t / b == q * (a / b);
    assert 0.0 < a / b <= 1.0 by { RatioBounds(a, b); }
    assert q * (a / b) <= q * 1.0;
  }

  function Get(scores: map<DocId, real>, id: DocId): real {
    if id in scores then scores[id] else 0.0
  }

  /** What one matching window is worth to each document holding it: `freq(id) * idf`. */
  function Gains(f: Freqs, inv: real): (r: map<DocId, real>)
    requires f.Valid()
    ensures r.Keys == f.freqs.Keys
  {
    map id | id in f.freqs :: f.Weight(id) * inv
  }

  /** `scores` after the documents in `done` got their gain. */
  function PartialGram(scores: map<DocId, real>, gains: map<DocId, real>, done: set<DocId>): (r: map<DocId, real>)
    requires done <= gains.Keys
    ensures r.Keys == scores.Keys + done
  {
    map id | id in scores.Keys + done :: Get(scores, id) + (if id in done then gains[id] else 0.0)
  }

  lemma PartialGramStep(scores: map<DocId, real>, gains: map<DocId, real>, done: set<DocId>, id: DocId)
    requires done <= gains.Keys && id in gains && id !in done
    ensures PartialGram(scores, gains, done + {id}) ==
      PartialGram(scores, gains, done)[id := Get(PartialGram(scores, gains, done), id) + gains[id]]
  {
    var before := PartialGram(scores, gains, done);
    var a := PartialGram(scores, gains, done + {id});
    var b := before[id := Get(before, id) + gains[id]];
    assert a.Keys == b.Keys;
  }

  lemma GainsAt(f: Freqs, inv: real, id: DocId, freq: real)
    requires f.Valid() && id in f.freqs && freq == f.Weight(id)
    ensures Gains(f, inv)[id] == freq * inv
  {
  }

  lemma PartialGramAt(scores: map<DocId, real>, gains: map<DocId, real>, done: set<DocId>, id: DocId)
    requires done <= gains.Keys && id in done
    ensures PartialGram(scores, gains, done)[id] == Get(scores, id) + gains[id]
  {
  }

  lemma PartialGramNone(scores: map<DocId, real>, gains: map<DocId, real>)
    ensures PartialGram(scores, gains, {}) == scores
  {
  }

  /** One matching window: every document holding the gram gains `freq * idf`. */
  function AddGram(scores: map<DocId, real>, f: Freqs, inv: real): map<DocId, real>
    requires f.Valid()
  {
    PartialGram(scores, Gains(f, inv), f.freqs.Keys)
  }

  /** `search`: the score map accumulated over the windows `ws` of a query. */
  function Scores(s: IndexState, ws: seq<Gram>, ln: real -> real): (r: map<DocId, real>)
    requires forall g :: g in s.grams ==> s.grams[g].Valid()
    ensures forall id :: id in r ==> exists g :: g in s.grams && id in s.grams[g].freqs
    decreases |ws|
  {
    if ws == [] then map[]
    else
      var prev, g := Scores(s, ws[..|ws| - 1], ln), ws[|ws| - 1];
      if g in s.grams then AddGram(prev, s.grams[g], Idf(s.totalDocs, s.grams[g], ln)) else prev
  }

  lemma ScoresStep(s: IndexState, ws: seq<Gram>, i: nat, ln: real -> real)
    requires forall g :: g in s.grams ==> s.grams[g].Valid()
    requires i < |ws|
    ensures Scores(s, ws[..i + 1], ln) ==
      if ws[i] in s.grams then AddGram(Scores(s, ws[..i], ln), s.grams[ws[i]], Idf(s.totalDocs, s.grams[ws[i]], ln))
      else Scores(s, ws[..i], ln)
  {
    assert ws[..i + 1][..i] == ws[..i];
  }

  lemma ScoresSnoc(s: IndexState, ws: seq<Gram>, g: Gram, ln: real -> real)
    requires forall g :: g in s.grams ==> s.grams[g].Valid()
    ensures Scores(s, ws + [g], ln) ==
      if g in s.grams then AddGram(Scores(s, ws, ln), s.grams[g], Idf(s.totalDocs, s.grams[g], ln))
      else Scores(s, ws, ln)
  {
    assert (ws + [g])[..|ws|] == ws;
  }

  /**
   * The result is sparse: it has an entry for exactly the documents that hold at least one of
   * the query's windows.
   */
  lemma {:induction false} ScoresKeys(s: IndexState, ws: seq<Gram>, ln: real -> real, id: DocId)
    requires forall g :: g in s.grams ==> s.grams[g].Valid()
    ensures id in Scores(s, ws, ln) <==> exists i :: 0 <= i < |ws| && ws[i] in s.grams && id in s.grams[ws[i]].freqs
    decreases |ws|
  {
    if ws != [] {
      var front := ws[..|ws| - 1];
      ScoresKeys(s, front, ln, id);
      if exists i :: 0 <= i < |front| && front[i] in s.grams && id in s.grams[front[i]].freqs {
        var i :| 0 <= i < |front| && front[i] in s.grams && id in s.grams[front[i]].freqs;
        assert ws[i] == front[i];
      }
    }
  }

  /**
   * Scoring order: for a one-window query, a document with more occurrences of the gram scores
   * strictly higher than one with fewer, whenever the gram's idf is positive.
   */
  lemma DenserScoresHigher(s: IndexState, g: Gram, ln: real -> real, d1: DocId, d2: DocId)
    requires forall g :: g in s.grams ==> s.grams[g].Valid()
    requires g in s.grams && Idf(s.totalDocs, s.grams[g], ln) > 0.0
    requires s.grams[g].Count(d1) > s.grams[g].Count(d2) > 0
    ensures d1 in Scores(s, [g], ln) && d2 in Scores(s, [g], ln)
    ensures Scores(s, [g], ln)[d1] > Scores(s, [g], ln)[d2]
  {
    var f := s.grams[g];
    var inv := Idf(s.totalDocs, f, ln);
    assert [g][..0] == [];
    assert Scores(s, [g], ln) == AddGram(map[], f, inv);
    var gains := Gains(f, inv);
    WeightMonotone(f, d1, d2);
    GainsMonotone(f, inv, d1, d2);
    PartialGramAt(map[], gains, f.freqs.Keys, d1);
    PartialGramAt(map[], gains, f.freqs.Keys, d2);
  }

  lemma GainsMonotone(f: Freqs, inv: real, d1: DocId, d2: DocId)
    requires f.Valid() && d1 in f.freqs && d2 in f.freqs && inv > 0.0
    requires f.Weight(d1) > f.Weight(d2)
    ensures Gains(f, inv)[d1] > Gains(f, inv)[d2]
  {
    var w1, w2 := f.Weight(d1), f.Weight(d2);
    GainsAt(f, inv, d1, w1);
    GainsAt(f, inv, d2, w2);
    MulMonotone(w1, w2, inv);
  }

  /** `freq` grows with the count. */
  lemma WeightMonotone(f: Freqs, d1: DocId, d2: DocId)
    requires f.Valid() && f.Count(d1) > f.Count(d2) > 0
    ensures f.Weight(d1) > f.Weight(d2)
  {
    DivMonotone(f.Count(d1) as real, f.Count(d2) as real, f.maxFreq as real);
  }

  lemma DivMonotone(a: real, b: real, m: real)
    requires a > b && m > 0.0
    ensures a / m > b / m
  {
    assert a / m * m == a && b / m * m == b;
  }

  lemma MulMonotone(a: real, b: real, k: real)
    requires a > b && k > 0.0
    ensures a * k > b * k
  {
  }

  /**
   * Inserting a text and then searching for any piece of it at least `n` bytes long finds the
   * document.
   */
  lemma InsertedTextIsFound(s: IndexState, n: nat, id: DocId, text: seq<byte>, q: seq<byte>, at: nat, ln: real -> real)
    requires n > 0 && GramsValid(s.grams, n)
    requires |q| >= n && at + |q| <= |text| && text[at..at + |q|] == q
    ensures GramsValid(Inserted(s, id, Windows(text, n)).grams, n)
    ensures id in Scores(Inserted(s, id, Windows(text, n)), Windows(q, n), ln)
  {
    var ws := Windows(text, n);
    var t := Inserted(s, id, ws);
    AddAllValid(s.grams, id, ws, n);
    var g := q[0..n];
    assert ws[at] == text[at..at + n] == g;
    assert g in multiset(ws);
    AddAllCount(s.grams, id, ws, g, id);
    assert g in t.grams && id in t.grams[g].freqs;
    assert Windows(q, n)[0] == g;
    ScoresKeys(t, Windows(q, n), ln, id);
  }

  /**
   * The inner loop of `search`: every document holding the gram gains `freq(id) * idf`, taken
   * in any order.
   */
  method AddGramScores(start: map<DocId, real>, f: Freqs, totalDocs: int, ln: real -> real)
    returns (scores: map<DocId, real>)
    requires f.Valid()
    ensures scores == AddGram(start, f, Idf(totalDocs, f, ln))
  {
    ghost var gains := Gains(f, Idf(totalDocs, f, ln));
    PartialGramNone(start, gains);
    scores := start;
    var todo := f.freqs.Keys;
    while todo != {}
      invariant todo <= f.freqs.Keys
      invariant scores == PartialGram(start, gains, f.freqs.Keys - todo)
      decreases todo
    {
      var id :| id in todo;
      var freq := f.Weight(id);
      var inv := ln(totalDocs as real / (if f.Docs() > 1 then f.Docs() else 1) as real);
      assert inv == Idf(totalDocs, f, ln);
      GainsAt(f, inv, id, freq);
      ghost var done := f.freqs.Keys - todo;
      PartialGramStep(start, gains, done, id);
      var score := if id in scores then scores[id] else 0.0;
      assert score == Get(PartialGram(start, gains, done), id);
      assert freq * inv == gains[id];
      scores := scores[id := score + freq * inv];
      assert scores == PartialGram(start, gains, done + {id});
      todo := todo - {id};
      assert f.freqs.Keys - todo == done + {id};
    }
    assert f.freqs.Keys - todo == f.freqs.Keys;
  }

  // ---------------------------------------------------------------------------------------

  /** `Index<N>`, with the window length `n` chosen at construction. */
  class Index {
    const n: nat
    var grams: map<Gram, Freqs>
    var totalDocs: int

    ghost predicate Valid()
      reads this
    {
      n > 0 && GramsValid(grams, n)
    }

    function State(): IndexState
      reads this
    {
      IndexState(grams, totalDocs)
    }

    /** `Index::default()`; `windows(0)` would panic, so the width is positive. */
    constructor (n: nat)
      requires n > 0
      ensures Valid() && this.n == n && State() == EmptyIndex
    {
      this.n := n;
      grams := map[];
      totalDocs := 0;
    }

    /**
     * The loop `insert` and `insert_many` share: every window of `text` counts once more for
     * `id` (`entry(gram).or_insert_with(Freqs::default).increase(id)`).
     */
    method AddWindows(id: DocId, text: seq<byte>)
      requires Valid()
      modifies this
      ensures grams == AddAll(old(grams), id, Windows(text, n))
      ensures totalDocs == old(totalDocs)
      ensures Valid()
    {
      ghost var ws := Windows(text, n);
      var i := 0;
      while i + n <= |text|
        invariant 0 <= i <= |ws|
        invariant grams == AddAll(old(grams), id, ws[..i]) && totalDocs == old(totalDocs)
      {
        var gram := text[i..i + n];
        var f := if gram in grams then grams[gram] else NoFreqs;
        assert gram == ws[i];
        AddAllStep(old(grams), id, ws, i);
        grams := grams[gram := f.Increase(id)];
        i := i + 1;
      }
      assert ws[..i] == ws;
      AddAllValid(old(grams), id, ws, n);
    }

    /** `insert`: every window of `text` counts once for `id`; one more document. */
    method Insert(id: DocId, text: seq<byte>)
      requires Valid()
      modifies this
      ensures Valid()
      ensures State() == Inserted(old(State()), id, Windows(text, n))
    {
      AddWindows(id, text);
      totalDocs := totalDocs + 1;
    }

    /** `insert_many`: each text windowed on its own, all for `id`; one more document in all. */
    method InsertMany(id: DocId, texts: seq<seq<byte>>)
      requires Valid()
      modifies this
      ensures Valid()
      ensures State() == Inserted(old(State()), id, AllWindows(texts, n))
    {
      var j := 0;
      while j < |texts|
        invariant 0 <= j <= |texts| && Valid()
        invariant grams == AddAll(old(grams), id, AllWindows(texts[..j], n)) && totalDocs == old(totalDocs)
      {
        AddWindows(id, texts[j]);
        AddAllAppend(old(grams), id, AllWindows(texts[..j], n), Windows(texts[j], n));
        assert texts[..j + 1][..j] == texts[..j];
        j := j + 1;
      }
      assert texts[..j] == texts;
      totalDocs := totalDocs + 1;
    }

    /** `remove`: decrease `id` once in every gram (in any order); one document fewer. */
    method Remove(id: DocId)
      requires Valid()
      modifies this
      ensures Valid()
      ensures State() == Removed(old(State()), id)
    {
      var todo := grams.Keys;
      while todo != {}
        invariant PartlyDecreased(old(grams), grams, id, todo)
        invariant totalDocs == old(totalDocs)
        decreases todo
      {
        var g :| g in todo;
        DecreaseStep(old(grams), grams, id, todo, g);
        grams := grams[g := grams[g].Decrease(id)];
        todo := todo - {g};
      }
      DecreasedAll(old(grams), grams, id);
      RemovedEffect(old(grams), id, n);
      totalDocs := totalDocs - 1;
    }

    /** The corrected `remove`: the same loop over the grams, dropping `id` from each. */
    method Purge(id: DocId)
      requires Valid()
      modifies this
      ensures Valid()
      ensures State() == PurgedIndex(old(State()), id)
    {
      var todo := grams.Keys;
      while todo != {}
        invariant PartlyPurged(old(grams), grams, id, todo)
        invariant totalDocs == old(totalDocs)
        decreases todo
      {
        var g :| g in todo;
        grams := grams[g := grams[g].Drop(id)];
        todo := todo - {g};
      }
      PurgedAll(old(grams), grams, id);
      PurgedEffect(old(grams), id, n);
      totalDocs := totalDocs - 1;
    }

    /**
     * `search`: for every window of `text` found in the index, every document holding it gains
     * `freq * idf`. A query shorter than `n` has no window and scores nothing.
     */
    method Search(text: seq<byte>, ln: real -> real) returns (scores: map<DocId, real>)
      requires Valid()
      ensures scores == Scores(State(), Windows(text, n), ln)
      ensures |text| < n ==> scores == map[]
    {
      ghost var ws := Windows(text, n);
      scores := map[];
      var i := 0;
      while i + n <= |text|
        invariant 0 <= i <= |ws|
        invariant scores == Scores(State(), ws[..i], ln)
      {
        var gram := text[i..i + n];
        assert gram == ws[i];
        ScoresStep(State(), ws, i, ln);
        if gram in grams {
          var f := grams[gram];
          scores := AddGramScores(scores, f, totalDocs, ln);
        }
        i := i + 1;
      }
      assert ws[..i] == ws;
    }
  }
}
