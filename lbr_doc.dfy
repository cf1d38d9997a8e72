/**
 * Documents of the lbr-server (lbr-server/src/doc.rs) and how the library's document map is
 * written to and read from its index file: the map is stored as the plain list of its
 * documents in ascending id order, and reading the list back numbers the documents `0, 1, ...`
 * by position. Ids are decimal numbers in text (`Decimal.Show` and `Decimal.Parse`).
 */
module LbrDoc {
  import opened GramIndex

  /** `Doc`: a title, its authors and keywords, and the name of the stored file. */
  datatype Doc = Doc(title: string, authors: seq<string>, keywords: seq<string>, filename: string)

  /** The ids `lo .. hi - 1`. */
  function Range(lo: nat, hi: nat): (r: set<DocId>)
    ensures forall i :: i in r <==> lo <= i < hi
    ensures lo <= hi ==> |r| == hi - lo
    decreases hi - lo
  {
    if hi <= lo then {} else Range(lo, hi - 1) + {hi - 1}
  }

  /**
   * `deserialize_docs`: the list read from the index file, each document keyed by its
   * position. The ids are exactly `0 .. |list| - 1`, one per document.
   */
  function DeserializeDocs(list: seq<Doc>): (m: map<DocId, Doc>)
    ensures m.Keys == Range(0, |list|) && |m| == |list|
    ensures forall i :: 0 <= i < |list| ==> m[i] == list[i]
  {
    map i | i in Range(0, |list|) :: list[i]
  }

  /**
   * `serialize_docs`: the documents of the map in ascending id order (a `BTreeMap`'s
   * `values()`), ids dropped. Every document of the map is written, and nothing else.
   */
  function SerializeDocs(m: map<DocId, Doc>): (r: seq<Doc>)
    ensures |r| == |m|
    ensures forall d :: d in r <==> d in m.Values
    decreases |m|
  {
    if m == map[] then []
    else
      var k := Least(m.Keys);
      var rest := m - {k};
      assert m.Values == rest.Values + {m[k]} by {
        forall d | d in m.Values ensures d in rest.Values + {m[k]} {
          var j :| j in m && m[j] == d;
          if j != k {
            assert j in rest;
          }
        }
      }
      [m[k]] + SerializeDocs(rest)
  }

  /** One step of `SerializeDocs`: the document under the least id comes first. */
  lemma SerializeFirst(m: map<DocId, Doc>, k: DocId)
    requires k in m && forall o :: o in m ==> k <= o
    ensures SerializeDocs(m) == [m[k]] + SerializeDocs(m - {k})
  {
    assert Least(m.Keys) == k;
  }

  lemma SerializeFirstThen(m: map<DocId, Doc>, k: DocId, tail: seq<Doc>)
    requires k in m && forall o :: o in m ==> k <= o
    ensures [m[k]] + (SerializeDocs(m - {k}) + tail) == SerializeDocs(m) + tail
  {
    SerializeFirst(m, k);
  }

  /** The least id of `lo` is the least of `lo + hi` when `lo`'s ids are below `hi`'s. */
  lemma SerializeFirstOfUnion(lo: map<DocId, Doc>, hi: map<DocId, Doc>, k: DocId)
    requires forall a, b :: a in lo && b in hi ==> a < b
    requires k in lo && forall o :: o in lo ==> k <= o
    ensures SerializeDocs(lo + hi) == [lo[k]] + SerializeDocs((lo - {k}) + hi)
  {
    assert k !in hi;
    SerializeFirst(lo + hi, k);
    RemoveFromUnion(lo, hi, k);
  }

  lemma RemoveFromUnion(lo: map<DocId, Doc>, hi: map<DocId, Doc>, k: DocId)
    requires k !in hi
    ensures (lo + hi) - {k} == (lo - {k}) + hi
  {
    var a, b := (lo + hi) - {k}, (lo - {k}) + hi;
    assert a.Keys == b.Keys;
    forall x | x in a ensures a[x] == b[x] {
      if x in hi {
        assert a[x] == hi[x];
      } else {
        assert a[x] == lo[x];
      }
    }
  }

  /**
   * The order of the written list: when every id of `lo` is below every id of `hi`, the
   * documents of `lo` are all written before those of `hi`.
   */
  lemma {:induction false} SerializeSplit(lo: map<DocId, Doc>, hi: map<DocId, Doc>)
    requires forall a, b :: a in lo && b in hi ==> a < b
    ensures SerializeDocs(lo + hi) == SerializeDocs(lo) + SerializeDocs(hi)
    decreases |lo|
  {
    if lo == map[] {
      assert lo + hi == hi;
    } else {
      var k := Least(lo.Keys);
      var rest := lo - {k};
      assert |rest| < |lo| by {
        assert rest.Keys == lo.Keys - {k};
      }
      calc {
        SerializeDocs(lo + hi);
      == { SerializeFirstOfUnion(lo, hi, k); }
        [lo[k]] + SerializeDocs(rest + hi);
      == { SerializeSplit(rest, hi); }
        [lo[k]] + (SerializeDocs(rest) + SerializeDocs(hi));
      == { SerializeFirstThen(lo, k, SerializeDocs(hi)); }
        SerializeDocs(lo) + SerializeDocs(hi);
      }
    }
  }

  /** The documents of `list` keyed `a, a + 1, ...`. */
  function Shifted(list: seq<Doc>, a: nat): (m: map<DocId, Doc>)
    ensures forall i :: i in m <==> a <= i < a + |list|
    ensures forall i :: a <= i < a + |list| ==> m[i] == list[i - a]
    decreases |list|
  {
    if list == [] then map[] else Shifted(list[1..], a + 1)[a := list[0]]
  }

  lemma {:induction false} SerializeShifted(list: seq<Doc>, a: nat)
    ensures SerializeDocs(Shifted(list, a)) == list
    decreases |list|
  {
    var m := Shifted(list, a);
    if list == [] {
      assert m == map[];
    } else {
      var rest := Shifted(list[1..], a + 1);
      assert m == rest[a := list[0]];
      assert a !in rest;
      assert m - {a} == rest;
      var k := Least(m.Keys);
      assert a in m.Keys && k in m;
      assert k == a;
      assert SerializeDocs(m) == [list[0]] + SerializeDocs(rest);
      SerializeShifted(list[1..], a + 1);
      assert [list[0]] + list[1..] == list;
    }
  }

  /** Writing the documents just read gives back the same list. */
  lemma SerializeDeserialize(list: seq<Doc>)
    ensures SerializeDocs(DeserializeDocs(list)) == list
  {
    assert DeserializeDocs(list) == Shifted(list, 0);
    SerializeShifted(list, 0);
  }

  /**
   * Reading back what was written restores the map exactly when its ids are `0 .. n - 1`,
   * which holds for a library fresh from its index file.
   */
  lemma DeserializeSerialize(m: map<DocId, Doc>)
    requires m.Keys == Range(0, |m|)
    ensures DeserializeDocs(SerializeDocs(m)) == m
  {
    var list := seq(|m|, i requires 0 <= i < |m| => m[i]);
    assert m == DeserializeDocs(list);
    SerializeDeserialize(list);
  }

  /**
   * With a gap in the ids (document 1 removed), writing and reading renumbers the documents:
   * the one stored under id 2 comes back as id 1.
   */
  lemma GapRenumbered(a: Doc, b: Doc)
    ensures DeserializeDocs(SerializeDocs(map[0 := a, 2 := b])) == map[0 := a, 1 := b]
  {
    var m := map[0 := a, 2 := b];
    assert 0 in m;
    assert Least(m.Keys) == 0;
    var rest := m - {0};
    assert rest == map[2 := b];
    assert 2 in rest;
    assert Least(rest.Keys) == 2;
    assert rest - {2} == map[];
    assert SerializeDocs(m) == [a, b];
  }
}
