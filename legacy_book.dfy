/**
 * The legacy book record (legacy/src/book.rs): set-valued authors and keywords, a free-form
 * extension, a 32-byte `BookHash` written as lower-case hex, and the Open Library key built
 * from an ISBN.
 */
module LegacyBook {
  import opened Results
  import opened Text
  import opened Hex

  /** `Book`: `authors` and `keywords` are `BTreeSet`s. */
  datatype Book = Book(title: string, authors: set<string>, extension: string, keywords: set<string>)

  /**
   * `into_iter().collect()` into a set, one string at a time: every listed string, once, so
   * the set is never larger than the list.
   */
  function Collect(xs: seq<string>): (r: set<string>)
    ensures forall x :: x in r <==> x in xs
    ensures |r| <= |xs|
  {
    if xs == [] then {}
    else
      assert xs == xs[..|xs| - 1] + [xs[|xs| - 1]];
      Collect(xs[..|xs| - 1]) + {xs[|xs| - 1]}
  }

  /** Collecting one more string adds it to the set. */
  lemma CollectSnoc(xs: seq<string>, i: nat)
    requires i < |xs|
    ensures Collect(xs[..i + 1]) == Collect(xs[..i]) + {xs[i]}
  {
    assert xs[..i + 1][..i] == xs[..i];
  }

  /** A repeated string adds nothing to the set. */
  lemma CollectSize(xs: seq<string>)
    ensures xs != [] && xs[|xs| - 1] in xs[..|xs| - 1] ==> Collect(xs) == Collect(xs[..|xs| - 1])
  {
  }

  /** `BookHash([u8; 32])`. */
  datatype BookHash = BookHash(bytes: Bytes32)

  /** `From<[u8; 32]> for BookHash` and `From<BookHash> for [u8; 32]` undo each other. */
  lemma ConversionsInverse(b: Bytes32, h: BookHash)
    ensures BookHash(b).bytes == b && BookHash(h.bytes) == h
  {
  }

  /** `Serialize for BookHash`: `hex::encode` of the bytes. */
  function SerializeHash(h: BookHash): string {
    Encode(h.bytes)
  }

  /**
   * `Deserialize for BookHash`: `hex::decode_to_slice` into a 32-byte buffer. It accepts exactly
   * 64 hex digits, in either case, and what it accepts serialises back lower-cased.
   */
  function DeserializeHash(s: string): (r: Result<BookHash, HexError>)
    ensures r.Ok? <==> |s| == 64 && AllHex(s)
    ensures r.Ok? ==> SerializeHash(r.value) == Lower(s)
  {
    DecodeSucceeds(s, 32);
    match Decode(s, 32)
    case Ok(bytes) => EncodeDecode(s, 32); Ok(BookHash(bytes))
    case Err(e) => Err(e)
  }

  /** A serialised hash is 64 lower-case hex digits. */
  lemma SerializeHashShape(h: BookHash)
    ensures |SerializeHash(h)| == 64 && AllHex(SerializeHash(h)) && Lower(SerializeHash(h)) == SerializeHash(h)
  {
    EncodeIsLowerHex(h.bytes);
  }

  lemma DeserializeSerialize(h: BookHash)
    ensures DeserializeHash(SerializeHash(h)) == Ok(h)
  {
    DecodeEncode(h.bytes);
  }

  // ---------------------------------------------------------------------------------------
  // The Open Library key: `"ISBN:"` then the numeric characters and 'X' of the input.

  /**
   * `char::is_numeric` is a Unicode table (the general categories Nd, Nl and No); it is a
   * parameter here. Among ASCII characters it holds for the digits '0' to '9' only.
   */
  ghost predicate AsciiNumeric(isNumeric: char -> bool) {
    forall c: char :: c as int < 0x80 ==> (isNumeric(c) <==> '0' <= c <= '9')
  }

  /** `c.is_numeric() || c == 'X'`. */
  predicate IsbnChar(isNumeric: char -> bool, c: char) {
    isNumeric(c) || c == 'X'
  }

  /** The characters of an ISBN that the key keeps, in order. */
  function IsbnDigits(isNumeric: char -> bool, s: string): (r: string)
    ensures |r| <= |s|
    ensures forall i :: 0 <= i < |r| ==> IsbnChar(isNumeric, r[i])
  {
    if s == [] then []
    else (if IsbnChar(isNumeric, s[0]) then [s[0]] else []) + IsbnDigits(isNumeric, s[1..])
  }

  /** `format!("ISBN:{}", ...)`: the prefix, then only kept characters. */
  function IsbnKey(isNumeric: char -> bool, isbn: string): (r: string)
    ensures 5 <= |r| <= 5 + |isbn| && r[..5] == "ISBN:"
    ensures forall i :: 5 <= i < |r| ==> IsbnChar(isNumeric, r[i])
  {
    "ISBN:" + IsbnDigits(isNumeric, isbn)
  }

  /** Filtering works piece by piece, so the kept characters stay in input order. */
  lemma {:induction false} IsbnDigitsAppend(isNumeric: char -> bool, a: string, b: string)
    ensures IsbnDigits(isNumeric, a + b) == IsbnDigits(isNumeric, a) + IsbnDigits(isNumeric, b)
  {
    if a == [] {
      assert a + b == b;
    } else {
      assert (a + b)[1..] == a[1..] + b;
      IsbnDigitsAppend(isNumeric, a[1..], b);
    }
  }

  /** Every kept character is kept as often as it occurs; nothing else survives. */
  lemma {:induction false} IsbnDigitsCounts(isNumeric: char -> bool, s: string, c: char)
    ensures multiset(IsbnDigits(isNumeric, s))[c] == if IsbnChar(isNumeric, c) then multiset(s)[c] else 0
  {
    if s != [] {
      IsbnDigitsCounts(isNumeric, s[1..], c);
      assert s == [s[0]] + s[1..];
    }
  }

  /** An input made only of kept characters passes unchanged; so filtering twice is filtering once. */
  lemma {:induction false} IsbnDigitsKeepsClean(isNumeric: char -> bool, s: string)
    ensures (forall i :: 0 <= i < |s| ==> IsbnChar(isNumeric, s[i])) <==> IsbnDigits(isNumeric, s) == s
  {
    if s != [] {
      IsbnDigitsKeepsClean(isNumeric, s[1..]);
      if IsbnDigits(isNumeric, s) == s {
        assert |IsbnDigits(isNumeric, s[1..])| <= |s[1..]|;
        assert IsbnChar(isNumeric, s[0]);
      }
    }
  }

  /** On ASCII input the rest of the Unicode table plays no part: the ASCII digits and 'X' are kept. */
  lemma {:induction false} IsbnDigitsAscii(isNumeric: char -> bool, s: string)
    requires AsciiNumeric(isNumeric)
    requires forall i :: 0 <= i < |s| ==> s[i] as int < 0x80
    ensures IsbnDigits(isNumeric, s) == IsbnDigits(c => '0' <= c <= '9', s)
  {
    if s != [] {
      assert s[0] as int < 0x80;
      IsbnDigitsAscii(isNumeric, s[1..]);
    }
  }
}
