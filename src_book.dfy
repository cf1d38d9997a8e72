/**
 * The book record of the `librarian` command-line tool (src/book.rs): a closed set of file
 * extensions with a case-insensitive name codec, and a 16-byte `BookHash` written as
 * lower-case hex.
 */
module SrcBook {
  import opened Results
  import opened Text
  import opened Hex

  datatype Extension = Pdf | Mobi | Epub | Djvu

  /** `Book`: authors and keywords are kept as lists. */
  datatype Book = Book(title: string, authors: seq<string>, extension: Extension, keywords: seq<string>)

  /** `Extension::to_str`: one of the four lower-case names. */
  function ExtensionName(e: Extension): (r: string)
    ensures r in {"pdf", "mobi", "epub", "djvu"} && Lower(r) == r
  {
    match e
    case Pdf => "pdf"
    case Mobi => "mobi"
    case Epub => "epub"
    case Djvu => "djvu"
  }

  /**
   * `Extension::from_str`: matches the lower-cased input against the four names; `None` is the
   * `panic!("invalid extension")` branch.
   */
  function ParseExtension(s: string): (r: Option<Extension>)
    ensures r.Some? <==> Lower(s) in {"pdf", "mobi", "epub", "djvu"}
    ensures r.Some? ==> ExtensionName(r.value) == Lower(s)
  {
    var l := Lower(s);
    if l == "pdf" then Some(Pdf)
    else if l == "mobi" then Some(Mobi)
    else if l == "epub" then Some(Epub)
    else if l == "djvu" then Some(Djvu)
    else None
  }

  /** Every extension parses back from its own name. */
  lemma ParseExtensionName(e: Extension)
    ensures ParseExtension(ExtensionName(e)) == Some(e)
  {
    LowerIdempotent(ExtensionName(e));
    assert Lower(ExtensionName(e)) == ExtensionName(e) by {
      var n := ExtensionName(e);
      assert forall i :: 0 <= i < |n| ==> !IsUpper(n[i]);
    }
  }

  /** Parsing is case-insensitive: a string parses as its lower-case form does. */
  lemma ParseExtensionAccepts(s: string)
    ensures ParseExtension(s) == ParseExtension(Lower(s))
  {
    LowerIdempotent(s);
  }

  /** `BookHash([u8; 16])`. */
  datatype BookHash = BookHash(bytes: Bytes16)

  /** `Serialize for BookHash`: `hex::encode` of the 16 bytes. */
  function SerializeHash(h: BookHash): string {
    Encode(h.bytes)
  }

  /**
   * `Deserialize for BookHash`: `hex::decode_to_slice` into a 16-byte buffer. It accepts exactly
   * 32 hex digits, in either case, and what it accepts serialises back lower-cased.
   */
  function DeserializeHash(s: string): (r: Result<BookHash, HexError>)
    ensures r.Ok? <==> |s| == 32 && AllHex(s)
    ensures r.Ok? ==> SerializeHash(r.value) == Lower(s)
  {
    DecodeSucceeds(s, 16);
    match Decode(s, 16)
    case Ok(bytes) => EncodeDecode(s, 16); Ok(BookHash(bytes))
    case Err(e) => Err(e)
  }

  /** A serialised hash is 32 lower-case hex digits and deserialises to itself. */
  lemma SerializeRoundTrip(h: BookHash)
    ensures |SerializeHash(h)| == 32 && AllHex(SerializeHash(h)) && Lower(SerializeHash(h)) == SerializeHash(h)
    ensures DeserializeHash(SerializeHash(h)) == Ok(h)
  {
    EncodeIsLowerHex(h.bytes);
    DecodeEncode(h.bytes);
  }
}
