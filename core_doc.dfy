/**
 * The shared document record of librarian-core (librarian-core/src/lib.rs): a document's
 * metadata and its 32-byte content hash, written as 64 lower-case hex digits, which also names
 * the stored file.
 */
module CoreDoc {
  import opened Results
  import opened Text
  import opened Hex

  /** `DocHash([u8; 32])`; the hash itself (blake3 of the file) is an input here. */
  datatype DocHash = DocHash(bytes: Bytes32)

  /** `Doc`: what the library stores about one document. */
  datatype Doc = Doc(title: string, authors: seq<string>, keywords: seq<string>, extension: string,
                     show: bool, hash: DocHash)

  /** `Display for DocHash`: `hex::encode` of the 32 bytes, two digits per byte. */
  function ShowHash(h: DocHash): (r: string)
    ensures |r| == 64
  {
    Encode(h.bytes)
  }

  /**
   * `FromStr for DocHash`: `hex::decode_to_slice` into a 32-byte buffer. It accepts exactly the
   * strings of 64 hex digits, in either case, and what it accepts is written back lower-cased.
   */
  function ParseHash(s: string): (r: Result<DocHash, HexError>)
    ensures r.Ok? <==> |s| == 64 && AllHex(s)
    ensures r.Ok? ==> ShowHash(r.value) == Lower(s)
  {
    DecodeSucceeds(s, 32);
    match Decode(s, 32)
    case Ok(bytes) => EncodeDecode(s, 32); Ok(DocHash(bytes))
    case Err(e) => Err(e)
  }

  /** `filename`: the 64 digits of the hash, a dot, then the extension. */
  function Filename(d: Doc): (r: string)
    ensures |r| == 65 + |d.extension| && r[64] == '.' && r[65..] == d.extension
  {
    ShowHash(d.hash) + "." + d.extension
  }

  /** A hash is written as exactly 64 lower-case hex digits. */
  lemma ShowHashShape(h: DocHash)
    ensures |ShowHash(h)| == 64 && AllHex(ShowHash(h)) && Lower(ShowHash(h)) == ShowHash(h)
  {
    EncodeIsLowerHex(h.bytes);
  }

  /** Parsing what `Display` wrote gives the hash back. */
  lemma ParseShowHash(h: DocHash)
    ensures ParseHash(ShowHash(h)) == Ok(h)
  {
    DecodeEncode(h.bytes);
  }

  /** Different hashes have different names. */
  lemma ShowHashInjective(a: DocHash, b: DocHash)
    requires ShowHash(a) == ShowHash(b)
    ensures a == b
  {
    EncodeInjective(a.bytes, b.bytes);
  }

  /** The file name splits back into the hash and the extension. */
  lemma FilenameParts(d: Doc)
    ensures var f := Filename(d);
      |f| == 65 + |d.extension| && f[64] == '.' && f[65..] == d.extension &&
      ParseHash(f[..64]) == Ok(d.hash)
  {
    var f := Filename(d);
    ShowHashShape(d.hash);
    assert f[..64] == ShowHash(d.hash);
    ParseShowHash(d.hash);
  }
}
