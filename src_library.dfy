/**
 * The command-line library of src/library.rs: books kept in a map ordered by their 32-byte
 * content hash, found again from a hex prefix of that hash, and edited in place. The hash of a
 * stored file and the outcome of the file copy are inputs (blake3 and the filesystem are not
 * part of this model).
 */
module SrcLibrary {
  import opened Results
  import opened Text
  import opened Hex
  import opened LegacyBook

  /** The failures the operations report (anyhow messages in the source). */
  datatype Error =
    | InvalidHash        // "Invalid hash"
    | HashNotFound       // "Hash not found"
    | HashCollision      // "Hash collision, please use a longer prefix"
    | HashTooLong        // "Hash is longer than expected"
    | NoExtension        // "File ... has no extension"
    | ReadFailed         // "Could not read file"
    | AlreadyInLibrary   // "Document is already in the library"
    | CopyFailed         // "Could not copy file to library"

  // ---------------------------------------------------------------------------------------
  // Hash prefixes.

  /** `k` lies in the inclusive range `[lo, hi]` of `BTreeMap::range`. */
  predicate InBand(k: BookHash, lo: Bytes32, hi: Bytes32) {
    LexLe(lo, k.bytes) && LexLe(k.bytes, hi)
  }

  /** The keys `BTreeMap::range((Included(lo), Included(hi)))` visits. */
  function InRange(keys: set<BookHash>, lo: Bytes32, hi: Bytes32): set<BookHash> {
    set k | k in keys && InBand(k, lo, hi)
  }

  /** The hex name of `k` starts with the digits `x`. */
  predicate HasHexPrefix(k: BookHash, x: string) {
    |x| <= 64 && Encode(k.bytes)[..|x|] == x
  }

  /** The keys whose hex name starts with `x`. */
  function WithHexPrefix(keys: set<BookHash>, x: string): set<BookHash> {
    set k | k in keys && HasHexPrefix(k, x)
  }

  /** The three outcomes of the range scan: nothing, exactly one key, or more. */
  ghost function Resolve(found: set<BookHash>): Result<BookHash, Error> {
    if found == {} then Err(HashNotFound)
    else if |found| == 1 then var k :| k in found; Ok(k)
    else Err(HashCollision)
  }

  /**
   * What `get_hash` computes, stated over hex names: an odd-length prefix is looked up with an
   * `f` appended (see `GetHashOddPrefixMisses`).
   */
  ghost function GetHashAsWritten(keys: set<BookHash>, s: string): Result<BookHash, Error> {
    if ByteLen(s) > 64 then Err(HashTooLong)
    else if !AllHex(s) then Err(InvalidHash)
    else Resolve(WithHexPrefix(keys, Lower(s) + (if |s| % 2 == 0 then "" else "f")))
  }

  /** What `get_hash` is meant to compute: the unique key whose hex name starts with `s`. */
  ghost function GetHashIntended(keys: set<BookHash>, s: string): Result<BookHash, Error> {
    if ByteLen(s) > 64 then Err(HashTooLong)
    else if !AllHex(s) then Err(InvalidHash)
    else Resolve(WithHexPrefix(keys, Lower(s)))
  }

  /** On hex digits that fit a hash, the intended lookup is that of the lower-cased digits. */
  lemma IntendedHex(keys: set<BookHash>, s: string)
    requires ByteLen(s) <= 64 && AllHex(s)
    ensures GetHashIntended(keys, s) == Resolve(WithHexPrefix(keys, Lower(s)))
  {
  }

  /** Not found on no key, the key itself on one, a collision on two or more. */
  lemma ResolveOutcomes(found: set<BookHash>)
    ensures Resolve(found) == Err(HashNotFound) <==> found == {}
    ensures Resolve(found).Ok? <==> |found| == 1
    ensures Resolve(found).Ok? ==> found == {Resolve(found).value}
    ensures Resolve(found) == Err(HashCollision) <==> |found| >= 2
  {
    if |found| == 1 {
      Singleton(found, Resolve(found).value);
    }
  }

  lemma Singleton(found: set<BookHash>, k: BookHash)
    requires |found| == 1 && k in found
    ensures found == {k}
  {
    assert |found - {k}| == 0;
  }

  /** A hash `get_hash` returns is a key of the map, and its hex name starts with the input. */
  lemma GetHashReturnsKey(keys: set<BookHash>, s: string)
    ensures GetHashAsWritten(keys, s).Ok? ==>
      GetHashAsWritten(keys, s).value in keys && HasHexPrefix(GetHashAsWritten(keys, s).value, Lower(s))
    ensures GetHashIntended(keys, s).Ok? ==>
      GetHashIntended(keys, s).value in keys && HasHexPrefix(GetHashIntended(keys, s).value, Lower(s))
  {
    var r := GetHashAsWritten(keys, s);
    if r.Ok? {
      var x := Lower(s) + (if |s| % 2 == 0 then "" else "f");
      ResolveOutcomes(WithHexPrefix(keys, x));
      var e := Encode(r.value.bytes);
      assert e[..|x|][..|s|] == e[..|s|];
      assert x[..|s|] == Lower(s);
    }
    if GetHashIntended(keys, s).Ok? {
      ResolveOutcomes(WithHexPrefix(keys, Lower(s)));
    }
  }

  /** The empty prefix names the only book, and fails whenever there are none or several. */
  lemma EmptyPrefix(keys: set<BookHash>)
    ensures GetHashAsWritten(keys, "").Ok? <==> |keys| == 1
    ensures |keys| == 1 ==> keys == {GetHashAsWritten(keys, "").value}
  {
    assert WithHexPrefix(keys, "") == keys;
    ResolveOutcomes(keys);
  }

  /** Sixty-four hex digits name one hash, found exactly when it is a key. */
  lemma FullHash(keys: set<BookHash>, s: string)
    requires Decode(s, 32).Ok?
    ensures GetHashAsWritten(keys, s) == GetHashIntended(keys, s)
    ensures var h := BookHash(Decode(s, 32).value);
      GetHashIntended(keys, s) == if h in keys then Ok(h) else Err(HashNotFound)
  {
    var p := Decode(s, 32).value;
    var h := BookHash(p);
    DecodeSucceeds(s, 32);
    Utf8Ascii(s);
    EncodeDecode(s, 32);
    forall k | k in keys
      ensures HasHexPrefix(k, Lower(s)) <==> k == h
    {
      if Encode(k.bytes) == Encode(p) {
        EncodeInjective(k.bytes, p);
      }
    }
    var found := WithHexPrefix(keys, Lower(s));
    if h in keys {
      assert found == {h};
    } else {
      assert found == {};
    }
    assert Lower(s) + "" == Lower(s);
  }

  /** From 64 digits on, the code as written and the intended lookup agree. */
  lemma FullHashAsWritten(keys: set<BookHash>, s: string)
    requires ByteLen(s) >= 64
    ensures GetHashAsWritten(keys, s) == GetHashIntended(keys, s)
  {
    HexByteLen(s);
    assert Lower(s) + "" == Lower(s);
  }

  /** The band `[p ‖ 00…, p ‖ ff…]` holds exactly the keys that start with `p`. */
  lemma BandKey(k: BookHash, p: seq<byte>)
    requires |p| <= 32
    ensures InBand(k, Pad(p, 0), Pad(p, 255)) <==> k.bytes[..|p|] == p
  {
    PrefixBand(p, k.bytes);
  }

  /** The band `[p ‖ 00…, p ‖ ff…]` holds exactly the keys whose name starts with `p`'s digits. */
  lemma PrefixKey(k: BookHash, p: seq<byte>)
    requires |p| <= 32
    ensures InBand(k, Pad(p, 0), Pad(p, 255)) <==> HasHexPrefix(k, Encode(p))
  {
    BandKey(k, p);
    BytePrefixDigits(k.bytes, p);
  }

  /** The band `[q ‖ a ‖ 00…, q ‖ b ‖ ff…]` holds the keys that start with `q`, then `a..b`. */
  lemma NibbleBandKey(k: BookHash, q: seq<byte>, a: byte, b: byte)
    requires |q| < 32
    ensures InBand(k, Pad(q + [a], 0), Pad(q + [b], 255))
        <==> k.bytes[..|q|] == q && a <= k.bytes[|q|] <= b
  {
    PadAfter(q, a, 0);
    PadAfter(q, b, 255);
    BandRange(q, a, b, 31 - |q|, k.bytes);
  }

  /**
   * The band `[q ‖ a ‖ 00…, q ‖ b ‖ ff…]`, where `b` is `a` with its low nibble set to 15 and `a`
   * has it 0, holds exactly the keys whose name starts with `q`'s digits and `b`'s high digit.
   */
  lemma NibbleKey(k: BookHash, q: seq<byte>, a: byte, b: byte)
    requires |q| < 32 && b % 16 == 15 && a as int + 15 == b as int
    ensures InBand(k, Pad(q + [a], 0), Pad(q + [b], 255))
        <==> HasHexPrefix(k, Encode(q) + [LowerDigits[b / 16]])
  {
    var v := k.bytes[|q|];
    NibbleBandKey(k, q, a, b);
    HighNibble(v, b);
    NibbleName(k, q, b / 16, Encode(q) + [LowerDigits[b / 16]]);
  }

  /** The name of `k` starts with `x`, `q`'s digits and the digit `d`, when its bytes do. */
  lemma NibbleName(k: BookHash, q: seq<byte>, d: nat, x: string)
    requires |q| < 32 && d < 16 && x == Encode(q) + [LowerDigits[d]]
    ensures HasHexPrefix(k, x) <==> k.bytes[..|q|] == q && k.bytes[|q|] / 16 == d
  {
    NibblePrefix(k.bytes, q, d);
  }

  lemma HighNibble(v: byte, b: byte)
    requires b % 16 == 15
    ensures b - 15 <= v <= b <==> v / 16 == b / 16
  {
  }

  /** The key sets agree when every key is in one exactly when it is in the other. */
  lemma SameKeys(keys: set<BookHash>, lo: Bytes32, hi: Bytes32, x: string)
    requires forall k :: k in keys ==> (InBand(k, lo, hi) <==> HasHexPrefix(k, x))
    ensures InRange(keys, lo, hi) == WithHexPrefix(keys, x)
  {
  }

  /** Decoding an even prefix gives the range of the keys that start with it. */
  lemma EvenRange(keys: set<BookHash>, digits: string, n: nat, p: seq<byte>)
    requires n <= 32 && Decode(digits, n) == Ok(p)
    ensures |p| == n
    ensures LexLe(Pad(p, 0), Pad(p, 255))
    ensures InRange(keys, Pad(p, 0), Pad(p, 255)) == WithHexPrefix(keys, Lower(digits))
  {
    DecodeSucceeds(digits, n);
    EncodeDecode(digits, n);
    PrefixBand(p, Pad(p, 0));
    assert Pad(p, 0)[..n] == p;
    forall k | k in keys
      ensures InBand(k, Pad(p, 0), Pad(p, 255)) <==> HasHexPrefix(k, Lower(digits))
    {
      PrefixKey(k, p);
    }
  }

  /**
   * Decoding an odd prefix padded with `f`: the last byte's low nibble is 15 and its high nibble
   * is the prefix's last digit.
   */
  lemma OddDigits(s: string, n: nat, p: seq<byte>)
    requires Decode(s + "f", n) == Ok(p)
    ensures |p| == n && n > 0 && p[|p| - 1] % 16 == 15 && AllHex(s)
    ensures Lower(s) == Encode(p[..|p| - 1]) + [LowerDigits[p[|p| - 1] / 16]]
  {
    DecodeSucceeds(s + "f", n);
    assert forall i :: 0 <= i < |s| ==> (s + "f")[i] == s[i];
    EncodeDecode(s + "f", n);
    LowerAppend(s, "f");
    var q, b := p[..n - 1], p[n - 1];
    SplitLast(p);
    EncodeAppend(q, [b]);
    assert Encode([b]) == [LowerDigits[b / 16], LowerDigits[b % 16]];
    var x := Encode(q) + [LowerDigits[b / 16]];
    assert Encode(p) == x + [LowerDigits[b % 16]];
    assert Lower(s + "f") == Lower(s) + "f";
    SnocEqual(Lower(s), 'f', x, LowerDigits[b % 16]);
    DigitsDistinct(b % 16, 15);
  }

  /** The band `[q ‖ a ‖ 00…, q ‖ b ‖ ff…]` holds the keys that start with `q`'s digits and `b`'s high digit. */
  lemma NibbleRange(keys: set<BookHash>, q: seq<byte>, a: byte, b: byte)
    requires |q| < 32 && b % 16 == 15 && a as int + 15 == b as int
    ensures LexLe(Pad(q + [a], 0), Pad(q + [b], 255))
    ensures InRange(keys, Pad(q + [a], 0), Pad(q + [b], 255))
        == WithHexPrefix(keys, Encode(q) + [LowerDigits[b / 16]])
  {
    var lo, hi := Pad(q + [a], 0), Pad(q + [b], 255);
    var x := Encode(q) + [LowerDigits[b / 16]];
    PadOrdered(q, a, b);
    forall k | k in keys
      ensures InBand(k, lo, hi) <==> HasHexPrefix(k, x)
    {
      NibbleKey(k, q, a, b);
    }
    SameKeys(keys, lo, hi, x);
  }

  /** The bounds of a nibble scan are ordered. */
  lemma NibbleOrdered(p: seq<byte>)
    requires 0 < |p| <= 32 && p[|p| - 1] % 16 == 15
    ensures LexLe(Pad(p[..|p| - 1] + [p[|p| - 1] - 15], 0), Pad(p, 255))
  {
    var q, b := p[..|p| - 1], p[|p| - 1];
    SplitLast(p);
    PadOrdered(q, b - 15, b);
  }

  /** A hex string takes one byte per character. */
  lemma HexByteLen(s: string)
    ensures AllHex(s) ==> ByteLen(s) == |s|
  {
    if AllHex(s) {
      Utf8Ascii(s);
    }
  }

  /** The digits `get_hash` decodes: the input, padded with `f` to an even length. */
  function Digits(s: string): string {
    if ByteLen(s) % 2 == 0 then s else s + "f"
  }

  /** The digits `get_hash` decodes are hex exactly when the input is. */
  lemma DigitsDecode(s: string)
    requires ByteLen(s) < 64
    ensures Decode(Digits(s), (ByteLen(s) + 1) / 2).Ok? <==> AllHex(s)
    ensures AllHex(s) ==> Lower(Digits(s)) == Lower(s) + (if |s| % 2 == 0 then "" else "f")
  {
    var digits := Digits(s);
    DecodeSucceeds(digits, (ByteLen(s) + 1) / 2);
    HexByteLen(s);
    if AllHex(s) {
      assert AllHex(digits);
    }
    if AllHex(digits) {
      assert forall i :: 0 <= i < |s| ==> s[i] == digits[i];
    }
    LowerAppend(s, "f");
    assert Lower(s) + "" == Lower(s);
    if Decode(digits, (ByteLen(s) + 1) / 2).Ok? {
      assert |digits| % 2 == 0;
    }
  }

  /** A short prefix, as written: the keys between `p ‖ 00…` and `p ‖ ff…`, `p` the padded digits. */
  lemma ShortAsWritten(keys: set<BookHash>, s: string, p: seq<byte>)
    requires ByteLen(s) < 64 && Decode(Digits(s), (ByteLen(s) + 1) / 2) == Ok(p)
    ensures var n := (ByteLen(s) + 1) / 2;
      |p| == n && LexLe(Pad(p, 0), Pad(p, 255)) &&
      GetHashAsWritten(keys, s) == Resolve(InRange(keys, Pad(p, 0), Pad(p, 255)))
  {
    DigitsDecode(s);
    EvenRange(keys, Digits(s), (ByteLen(s) + 1) / 2, p);
  }

  /** A short prefix of even length, corrected: the keys between `p ‖ 00…` and `p ‖ ff…`. */
  lemma ShortEven(keys: set<BookHash>, s: string, p: seq<byte>)
    requires ByteLen(s) < 64 && ByteLen(s) % 2 == 0 && Decode(s, ByteLen(s) / 2) == Ok(p)
    ensures |p| <= 32
    ensures GetHashIntended(keys, s) == Resolve(InRange(keys, Pad(p, 0), Pad(p, 255)))
  {
    DigitsDecode(s);
    EvenRange(keys, s, ByteLen(s) / 2, p);
  }

  /**
   * A short prefix of odd length, corrected: with `p` the bytes of the digits padded with `f`,
   * the keys between `p`, its last byte's low nibble cleared, followed by `00…`, and `p ‖ ff…`.
   */
  lemma {:induction false} ShortOdd(keys: set<BookHash>, s: string, p: seq<byte>)
    requires ByteLen(s) < 64 && ByteLen(s) % 2 == 1 && Decode(s + "f", (ByteLen(s) + 1) / 2) == Ok(p)
    ensures 0 < |p| <= 32 && p[|p| - 1] % 16 == 15 && AllHex(s)
    ensures InRange(keys, Pad(p[..|p| - 1] + [p[|p| - 1] - 15], 0), Pad(p, 255)) == WithHexPrefix(keys, Lower(s))
  {
    OddDigits(s, (ByteLen(s) + 1) / 2, p);
    NibbleRangeOf(keys, p);
  }

  /** `NibbleRange` with `q ‖ b` given as one byte string `p`. */
  lemma NibbleRangeOf(keys: set<BookHash>, p: seq<byte>)
    requires 0 < |p| <= 32 && p[|p| - 1] % 16 == 15
    ensures InRange(keys, Pad(p[..|p| - 1] + [p[|p| - 1] - 15], 0), Pad(p, 255))
        == WithHexPrefix(keys, Encode(p[..|p| - 1]) + [LowerDigits[p[|p| - 1] / 16]])
  {
    var q, b := p[..|p| - 1], p[|p| - 1];
    SplitLast(p);
    NibbleRange(keys, q, b - 15, b);
    assert Pad(q + [b], 255) == Pad(p, 255);
  }

  /**
   * On the digits "abc" and a library holding the single hash ab c0 00…, the code misses the
   * book although its name starts with "abc": the odd prefix is looked up as "abcf".
   */
  lemma GetHashOddPrefixMisses()
    ensures var k := BookHash(Pad([0xab, 0xc0], 0));
      GetHashAsWritten({k}, "abc") == Err(HashNotFound) &&
      GetHashIntended({k}, "abc") == Ok(k)
  {
    var k := BookHash(Pad([0xab, 0xc0], 0));
    AbcAsWritten(k);
    AbcIntended(k);
  }

  lemma AbcAsWritten(k: BookHash)
    requires k.bytes == Pad([0xab, 0xc0], 0)
    ensures GetHashAsWritten({k}, "abc") == Err(HashNotFound)
  {
    AbcDigits(k);
    AbcHex();
    assert Lower("abc") + "f" == "abcf";
    assert WithHexPrefix({k}, "abcf") == {};
  }

  lemma AbcIntended(k: BookHash)
    requires k.bytes == Pad([0xab, 0xc0], 0)
    ensures GetHashIntended({k}, "abc") == Ok(k)
  {
    AbcDigits(k);
    AbcHex();
    assert WithHexPrefix({k}, "abc") == {k};
  }

  lemma AbcHex()
    ensures AllHex("abc") && ByteLen("abc") == 3
  {
    assert AllHex("abc");
    HexByteLen("abc");
  }

  /** The hash ab c0 00… is named "abc0…": it starts with "abc" but not with "abcf". */
  lemma AbcDigits(k: BookHash)
    requires k.bytes == Pad([0xab, 0xc0], 0)
    ensures HasHexPrefix(k, "abc") && !HasHexPrefix(k, "abcf")
    ensures Lower("abc") == "abc"
  {
    var e := Encode(k.bytes);
    EncodePrefix(k.bytes, 2);
    assert k.bytes[..2] == [0xab, 0xc0];
    assert Encode([0xab, 0xc0]) == "abc0";
    assert e[..3] == e[..4][..3];
  }

  // ---------------------------------------------------------------------------------------
  // File names and paths.

  /** Index just past the last `c` in `s`, or 0 when `s` has none. */
  function AfterLast(s: string, c: char): (i: nat)
    ensures i <= |s|
    ensures i > 0 ==> s[i - 1] == c
    ensures forall j :: i <= j < |s| ==> s[j] != c
  {
    if s == [] then 0 else if s[|s| - 1] == c then |s| else AfterLast(s[..|s| - 1], c)
  }

  /** The path without its trailing separators. */
  function TrimSlashes(s: string): (r: string)
    ensures r <= s
    ensures r == [] || r[|r| - 1] != '/'
  {
    if s != [] && s[|s| - 1] == '/' then TrimSlashes(s[..|s| - 1]) else s
  }

  /**
   * `Path::file_name`: the last component, skipping `.` components and separators; none when
   * the path is empty, the root, `.` or ends in `..`.
   */
  function FileName(path: string): (r: Option<string>)
    ensures r.Some? ==> r.value != "" && r.value != "." && r.value != ".." && '/' !in r.value
    decreases |path|
  {
    var t := TrimSlashes(path);
    var i := AfterLast(t, '/');
    var name := t[i..];
    if name == "" then None
    else if name == "." then FileName(t[..i])
    else if name == ".." then None
    else Some(name)
  }

  /**
   * `Path::extension` on a file name: what follows the last dot, unless there is no dot or the
   * only dot starts the name.
   */
  function NameExtension(name: string): (r: Option<string>)
    ensures r.Some? ==> '.' !in r.value
  {
    var i := AfterLast(name, '.');
    if i <= 1 then None else Some(name[i..])
  }

  /** The extension `store` records: the file name's extension, lower-cased. */
  function ExtensionOf(file: string): (r: Option<string>)
    ensures r.Some? ==> '.' !in r.value && '/' !in r.value && Lower(r.value) == r.value
  {
    match FileName(file)
    case None => None
    case Some(name) =>
      match NameExtension(name)
      case None => None
      case Some(ext) =>
        assert forall i :: 0 <= i < |ext| ==> ext[i] in name;
        LowerIdempotent(ext);
        Some(Lower(ext))
  }

  /** `PathBuf::join` of a relative name: one separator between the parts, none after "". */
  function Join(dir: string, name: string): (r: string)
    requires name == [] || name[0] != '/'
    ensures r == dir + name || r == dir + "/" + name
  {
    if dir == [] || dir[|dir| - 1] == '/' then dir + name else dir + "/" + name
  }

  /** In `a ‖ c ‖ b` with no `c` in `b`, the last `c` is the one after `a`. */
  lemma AfterLastSplit(a: string, c: char, b: string)
    requires c !in b
    ensures AfterLast(a + [c] + b, c) == |a| + 1
  {
    AfterLastSkip(a + [c], c, b);
  }

  /** Characters other than `c` at the end do not move the last `c`. */
  lemma {:induction false} AfterLastSkip(x: string, c: char, b: string)
    requires c !in b
    ensures AfterLast(x + b, c) == AfterLast(x, c)
    decreases |b|
  {
    if b == [] {
      assert x + b == x;
    } else {
      var front := b[..|b| - 1];
      assert b[|b| - 1] in b;
      assert (x + b)[..|x + b| - 1] == x + front;
      AfterLastSkip(x, c, front);
    }
  }

  /** A name without separators, after a separator, is the path's file name. */
  lemma FileNameAfter(dir: string, name: string)
    requires name != "" && name != "." && name != ".." && '/' !in name
    ensures FileName(dir + "/" + name) == Some(name)
  {
    var path := dir + "/" + name;
    assert path[|path| - 1] == name[|name| - 1];
    assert TrimSlashes(path) == path;
    AfterLastSplit(dir, '/', name);
    assert path[|dir| + 1..] == name;
  }

  /** A file `name.ext` in any directory has extension `ext`, lower-cased. */
  lemma ExtensionFound(dir: string, name: string, ext: string)
    requires name != "" && name + "." + ext != ".."
    requires '/' !in name && '/' !in ext && '.' !in ext
    ensures ExtensionOf(dir + "/" + name + "." + ext) == Some(Lower(ext))
  {
    var file := name + "." + ext;
    assert dir + "/" + name + "." + ext == dir + "/" + file;
    FileNameAfter(dir, file);
    AfterLastSplit(name, '.', ext);
    assert file[|name| + 1..] == ext;
  }

  /** A file name without a dot, or whose only dot starts it, has no extension. */
  lemma ExtensionMissing(dir: string, name: string)
    requires name != "" && name != "." && name != ".." && '/' !in name
    requires '.' !in name[1..]
    ensures ExtensionOf(dir + "/" + name) == None
  {
    FileNameAfter(dir, name);
    assert forall j :: 1 <= j < |name| ==> name[j] == name[1..][j - 1];
  }

  // ---------------------------------------------------------------------------------------
  // Where a book is kept, storing it, and editing it.

  /** `path`: `root / <hex hash>.<extension>`, directly under the root. */
  function Path(root: string, hash: BookHash, extension: string): (r: string)
    ensures var name := Encode(hash.bytes) + "." + extension;
      r == root + name || r == root + "/" + name
  {
    EncodeIsLowerHex(hash.bytes);
    Join(root, Encode(hash.bytes) + "." + extension)
  }

  /** A book's file is named by its hash and extension, whatever the root. */
  lemma PathFileName(root: string, hash: BookHash, extension: string)
    requires '/' !in extension
    ensures FileName(Path(root, hash, extension)) == Some(Encode(hash.bytes) + "." + extension)
  {
    var name := Encode(hash.bytes) + "." + extension;
    EncodeIsLowerHex(hash.bytes);
    assert |name| >= 65;
    forall i | 0 <= i < |name| ensures name[i] != '/' {
      if i < 64 {
        assert IsHexChar(name[i]);
      } else if i > 64 {
        assert name[i] == extension[i - 65];
      }
    }
    FileNameOfJoin(root, name);
  }

  /** The last component of `dir` joined with a plain name is that name. */
  lemma FileNameOfJoin(dir: string, name: string)
    requires name != "" && name != "." && name != ".." && '/' !in name
    ensures FileName(Join(dir, name)) == Some(name)
  {
    if dir == [] || dir[|dir| - 1] == '/' {
      var path := dir + name;
      assert path[|path| - 1] == name[|name| - 1];
      assert TrimSlashes(path) == path;
      AfterLastSkip(dir, '/', name);
      assert path[|dir|..] == name;
    } else {
      FileNameAfter(dir, name);
    }
  }

  /**
   * What `store` does to the map `books`, and what it returns. `read(file)` is the hash of the
   * file's contents, or `None` when the file cannot be read; `copy(from, to)` says whether the
   * copy into the library succeeded.
   */
  function StoreOutcome(books: map<BookHash, Book>, root: string, file: string, title: string,
                        authors: seq<string>, keywords: seq<string>,
                        read: string -> Option<BookHash>, copy: (string, string) -> bool)
    : (r: (map<BookHash, Book>, Result<(), Error>))
    ensures books.Keys <= r.0.Keys
    ensures forall k :: k in r.0 && k !in books ==> read(file) == Some(k)
    ensures forall k :: k in books && read(file) != Some(k) ==> r.0[k] == books[k]
  {
    match ExtensionOf(file)
    case None => (books, Err(NoExtension))
    case Some(ext) =>
      match read(file)
      case None => (books, Err(ReadFailed))
      case Some(h) =>
        var after := books[h := Book(title, Collect(authors), ext, Collect(keywords))];
        if h in books then (after, Err(AlreadyInLibrary))
        else if copy(file, Path(root, h, ext)) then (after, Ok(()))
        else (after, Err(CopyFailed))
  }

  /**
   * Once the file has an extension and can be read, the new book is in the map under its
   * hash, even when `store` then fails because the hash was already there, or because the
   * copy failed; the book's extension is lower-case, and no other entry changes. Before that
   * point the map is untouched.
   */
  lemma StoreEffect(books: map<BookHash, Book>, root: string, file: string, title: string,
                    authors: seq<string>, keywords: seq<string>,
                    read: string -> Option<BookHash>, copy: (string, string) -> bool)
    ensures var (after, r) := StoreOutcome(books, root, file, title, authors, keywords, read, copy);
      if ExtensionOf(file).None? || read(file).None? then after == books && r.Err?
      else
        var h := read(file).value;
        after.Keys == books.Keys + {h} &&
        after[h].title == title && after[h].extension == ExtensionOf(file).value &&
        Lower(after[h].extension) == after[h].extension &&
        (forall a :: a in after[h].authors <==> a in authors) &&
        (forall w :: w in after[h].keywords <==> w in keywords) &&
        (forall k :: k in books && k != h ==> after[k] == books[k]) &&
        (h in books ==> r == Err(AlreadyInLibrary))
  {
    if ExtensionOf(file).Some? && read(file).Some? {
      var ext, h := ExtensionOf(file).value, read(file).value;
      var after := books[h := Book(title, Collect(authors), ext, Collect(keywords))];
      assert StoreOutcome(books, root, file, title, authors, keywords, read, copy).0 == after;
    }
  }

  /** `store` succeeds only on a new hash, and then the library holds one book more. */
  lemma StoreOkIsNew(books: map<BookHash, Book>, root: string, file: string, title: string,
                     authors: seq<string>, keywords: seq<string>,
                     read: string -> Option<BookHash>, copy: (string, string) -> bool)
    ensures var (after, r) := StoreOutcome(books, root, file, title, authors, keywords, read, copy);
      r.Ok? <==> ExtensionOf(file).Some? && read(file).Some? && read(file).value !in books &&
                 copy(file, Path(root, read(file).value, ExtensionOf(file).value))
    ensures var (after, r) := StoreOutcome(books, root, file, title, authors, keywords, read, copy);
      r.Ok? ==> |after| == |books| + 1
  {
  }

  /** `update_add`'s edit: the given authors and keywords join the book's sets. */
  function AddNames(b: Book, authors: seq<string>, keywords: seq<string>): Book {
    b.(authors := b.authors + Collect(authors), keywords := b.keywords + Collect(keywords))
  }

  /**
   * Adding names keeps the title and extension, loses no name, adds exactly the listed ones,
   * and doing it twice is doing it once.
   */
  lemma AddNamesEffect(b: Book, authors: seq<string>, keywords: seq<string>)
    ensures var r := AddNames(b, authors, keywords);
      r.title == b.title && r.extension == b.extension &&
      (forall a :: a in r.authors <==> a in b.authors || a in authors) &&
      (forall k :: k in r.keywords <==> k in b.keywords || k in keywords) &&
      AddNames(r, authors, keywords) == r
  {
  }

  /** `update`'s edit: each field given as `Some` replaces the book's, as a set for the lists. */
  function Replaced(b: Book, title: Option<string>, authors: Option<seq<string>>,
                    keywords: Option<seq<string>>): Book {
    Book(if title.Some? then title.value else b.title,
         if authors.Some? then Collect(authors.value) else b.authors,
         b.extension,
         if keywords.Some? then Collect(keywords.value) else b.keywords)
  }

  /**
   * A field passed as `None` keeps its value, one passed as `Some` takes the new one, the
   * extension never changes, and an update with nothing given changes nothing.
   */
  lemma ReplacedEffect(b: Book, title: Option<string>, authors: Option<seq<string>>,
                       keywords: Option<seq<string>>)
    ensures var r := Replaced(b, title, authors, keywords);
      r.extension == b.extension &&
      (r.title == if title.Some? then title.value else b.title) &&
      (authors.None? ==> r.authors == b.authors) &&
      (authors.Some? ==> forall a :: a in r.authors <==> a in authors.value) &&
      (keywords.None? ==> r.keywords == b.keywords) &&
      (keywords.Some? ==> forall k :: k in r.keywords <==> k in keywords.value) &&
      Replaced(r, title, authors, keywords) == r
    ensures Replaced(b, None, None, None) == b
  {
  }

  // ---------------------------------------------------------------------------------------
  // The library.

  class Library {
    /** `books`, ordered by hash. */
    var books: map<BookHash, Book>
    /** The directory the stored files live in. */
    const root: string

    /** `with_root`: an empty library under `root`. */
    constructor WithRoot(root: string)
      ensures this.root == root && books == map[]
    {
      this.root := root;
      books := map[];
    }

    /** `range(...)` then two calls to `next()`. */
    method Scan(lo: Bytes32, hi: Bytes32) returns (r: Result<BookHash, Error>)
      requires LexLe(lo, hi)
      ensures r == Resolve(InRange(books.Keys, lo, hi))
    {
      var found := InRange(books.Keys, lo, hi);
      ResolveOutcomes(found);
      if found == {} {
        return Err(HashNotFound);
      }
      var first :| first in found;
      if |found| == 1 {
        Singleton(found, first);
        r := Ok(first);
      } else {
        r := Err(HashCollision);
      }
    }

    /**
     * `get_hash`, as written: a prefix shorter than a full hash is looked up by a range scan,
     * a full one directly.
     */
    method GetHash(s: string) returns (r: Result<BookHash, Error>)
      ensures r == GetHashAsWritten(books.Keys, s)
      ensures r.Ok? ==> r.value in books
    {
      GetHashReturnsKey(books.Keys, s);
      if ByteLen(s) < 64 {
        r := PrefixLookup(s);
      } else {
        r := FullLookup(s);
        FullHashAsWritten(books.Keys, s);
      }
    }

    /** `get_hash` with the odd-prefix bound corrected. */
    method GetHashCorrected(s: string) returns (r: Result<BookHash, Error>)
      ensures r == GetHashIntended(books.Keys, s)
      ensures r.Ok? ==> r.value in books
    {
      GetHashReturnsKey(books.Keys, s);
      if ByteLen(s) < 64 {
        r := PrefixLookupCorrected(s);
      } else {
        r := FullLookup(s);
      }
    }

    /**
     * `get_hash` on a short prefix, as written: the prefix, padded with `f` to an even length,
     * is decoded into the top bound and copied into the bottom bound, and the keys between the
     * two are scanned.
     */
    method PrefixLookup(s: string) returns (r: Result<BookHash, Error>)
      requires ByteLen(s) < 64
      ensures r == GetHashAsWritten(books.Keys, s)
    {
      var len := ByteLen(s);
      var top := new byte[32](_ => 255);
      var hashLen := len / 2;
      var digits := s;
      if len % 2 != 0 {
        hashLen := (1 + len) / 2;
        top[hashLen - 1] := (top[hashLen - 1] - 15) % 256;
        digits := s + "f";
      }
      assert digits == Digits(s) && hashLen == (len + 1) / 2;
      DigitsDecode(s);
      var decoded := Decode(digits, hashLen);
      if decoded.Err? {
        return Err(InvalidHash);
      }
      var p := decoded.value;
      ShortAsWritten(books.Keys, s, p);
      var bot := Bounds(top, p);
      r := Scan(bot[..], top[..]);
    }

    /**
     * `get_hash` on a short prefix with the bottom bound's last nibble cleared after the copy,
     * so an odd prefix finds every key that starts with it.
     */
    method PrefixLookupCorrected(s: string) returns (r: Result<BookHash, Error>)
      requires ByteLen(s) < 64
      ensures r == GetHashIntended(books.Keys, s)
    {
      var len := ByteLen(s);
      var hashLen := (1 + len) / 2;
      var digits := if len % 2 == 0 then s else s + "f";
      var decoded := Decode(digits, hashLen);
      if decoded.Err? {
        DigitsDecode(s);
        return Err(InvalidHash);
      }
      var p := decoded.value;
      if len % 2 != 0 {
        ShortOdd(books.Keys, s, p);
        IntendedHex(books.Keys, s);
        r := ScanNibble(p);
      } else {
        ShortEven(books.Keys, s, p);
        r := ScanPrefix(p);
      }
    }

    /** The range scan between `p ‖ 00…` and `p ‖ ff…`. */
    method ScanPrefix(p: seq<byte>) returns (r: Result<BookHash, Error>)
      requires |p| <= 32
      ensures r == Resolve(InRange(books.Keys, Pad(p, 0), Pad(p, 255)))
    {
      var top := new byte[32](_ => 255);
      var bot := Bounds(top, p);
      PrefixOrdered(p);
      r := Scan(bot[..], top[..]);
    }

    /**
     * The range scan between `q ‖ a ‖ 00…` and `q ‖ b ‖ ff…`, where `p` is `q ‖ b` and `a` is
     * `b` with its low nibble cleared.
     */
    method ScanNibble(p: seq<byte>) returns (r: Result<BookHash, Error>)
      requires 0 < |p| <= 32 && p[|p| - 1] % 16 == 15
      ensures r == Resolve(InRange(books.Keys, Pad(p[..|p| - 1] + [p[|p| - 1] - 15], 0), Pad(p, 255)))
    {
      var top := new byte[32](_ => 255);
      var bot := Bounds(top, p);
      var hi := top[..];
      ClearLastNibble(bot, p);
      NibbleOrdered(p);
      r := Scan(bot[..], hi);
    }

    /** `get_hash` on 64 digits or more: a direct lookup of the whole hash, or too long. */
    method FullLookup(s: string) returns (r: Result<BookHash, Error>)
      requires ByteLen(s) >= 64
      ensures r == GetHashIntended(books.Keys, s)
    {
      HexByteLen(s);
      if ByteLen(s) == 64 {
        var decoded := Decode(s, 32);
        DecodeSucceeds(s, 32);
        if decoded.Err? {
          return Err(InvalidHash);
        }
        FullHash(books.Keys, s);
        var hash := BookHash(decoded.value);
        if hash !in books {
          return Err(HashNotFound);
        }
        r := Ok(hash);
      } else {
        r := Err(HashTooLong);
      }
    }

    /**
     * `store`: the lower-cased extension, the hash of the contents, then the book goes into
     * the map (replacing one already under that hash) and, only for a new hash, the file is
     * copied to `Path(root, hash, extension)`.
     */
    method Store(file: string, title: string, authors: seq<string>, keywords: seq<string>,
                 read: string -> Option<BookHash>, copy: (string, string) -> bool)
      returns (r: Result<(), Error>)
      modifies this
      ensures (books, r) == StoreOutcome(old(books), root, file, title, authors, keywords, read, copy)
    {
      var extension := ExtensionOf(file);
      if extension.None? {
        return Err(NoExtension);
      }
      var hash := read(file);
      if hash.None? {
        return Err(ReadFailed);
      }
      var h, ext := hash.value, extension.value;
      var path := Path(root, h, ext);
      var book := Book(title, Collect(authors), ext, Collect(keywords));
      var existed := h in books;
      books := books[h := book];
      if existed {
        return Err(AlreadyInLibrary);
      }
      if !copy(file, path) {
        return Err(CopyFailed);
      }
      r := Ok(());
    }

    /**
     * `update_add`: the book the prefix names gets the given authors and keywords added to
     * its sets, one at a time; nothing else changes. The prefix is resolved by `get_hash` as
     * written.
     */
    method UpdateAdd(s: string, authors: seq<string>, keywords: seq<string>) returns (r: Result<(), Error>)
      modifies this
      ensures var found := GetHashAsWritten(old(books).Keys, s);
        if found.Err? then r == Err(found.error) && books == old(books)
        else (r == Ok(()) && found.value in old(books) &&
              books == old(books)[found.value := AddNames(old(books)[found.value], authors, keywords)])
    {
      var found := GetHash(s);
      if found.Err? {
        return Err(found.error);
      }
      var h := found.value;
      var before := books[h];
      var book := before;
      var i := 0;
      while i < |authors|
        invariant 0 <= i <= |authors|
        invariant book == before.(authors := before.authors + Collect(authors[..i]))
        invariant books == old(books)
      {
        CollectSnoc(authors, i);
        book := book.(authors := book.authors + {authors[i]});
        i := i + 1;
      }
      assert authors[..i] == authors;
      i := 0;
      while i < |keywords|
        invariant 0 <= i <= |keywords|
        invariant book == AddNames(before, authors, keywords[..i])
        invariant books == old(books)
      {
        CollectSnoc(keywords, i);
        book := book.(keywords := book.keywords + {keywords[i]});
        i := i + 1;
      }
      assert keywords[..i] == keywords;
      books := books[h := book];
      r := Ok(());
    }

    /**
     * `update`: the book the prefix names gets each field given as `Some` replaced; nothing
     * else changes. The prefix is resolved by `get_hash` as written.
     */
    method Update(s: string, title: Option<string>, authors: Option<seq<string>>,
                  keywords: Option<seq<string>>) returns (r: Result<(), Error>)
      modifies this
      ensures var found := GetHashAsWritten(old(books).Keys, s);
        if found.Err? then r == Err(found.error) && books == old(books)
        else (r == Ok(()) && found.value in old(books) &&
              books == old(books)[found.value := Replaced(old(books)[found.value], title, authors, keywords)])
    {
      var found := GetHash(s);
      if found.Err? {
        return Err(found.error);
      }
      var h := found.value;
      var book := books[h];
      if title.Some? {
        book := book.(title := title.value);
      }
      if authors.Some? {
        book := book.(authors := Collect(authors.value));
      }
      if keywords.Some? {
        book := book.(keywords := Collect(keywords.value));
      }
      books := books[h := book];
      r := Ok(());
    }
  }

  /** Clears the low nibble of the last decoded byte in the bottom bound. */
  method ClearLastNibble(bot: array<byte>, p: seq<byte>)
    requires bot.Length == 32 && 0 < |p| <= 32 && p[|p| - 1] % 16 == 15 && bot[..] == Pad(p, 0)
    modifies bot
    ensures bot[..] == Pad(p[..|p| - 1] + [p[|p| - 1] - 15], 0)
  {
    var i := |p| - 1;
    bot[i] := bot[i] - 15;
    PadLast(p, p[i] - 15, 0);
  }

  /**
   * The two bounds of the range scan: the decoded bytes `p` land in `top` over `ff…`, and are
   * added onto the zeros of a fresh `bot`.
   */
  method Bounds(top: array<byte>, p: seq<byte>) returns (bot: array<byte>)
    requires top.Length == 32 && |p| <= 32
    requires forall j :: |p| <= j < 32 ==> top[j] == 255
    modifies top
    ensures fresh(bot)
    ensures top[..] == Pad(p, 255) && bot[..] == Pad(p, 0)
  {
    bot := new byte[32](_ => 0);
    forall i | 0 <= i < |p| {
      top[i] := p[i];
    }
    for i := 0 to |p|
      modifies bot
      invariant forall j :: 0 <= j < i ==> bot[j] == top[j]
      invariant forall j :: i <= j < 32 ==> bot[j] == 0
    {
      bot[i] := bot[i] + top[i];
    }
    PadShape(top[..], p, 255);
    PadShape(bot[..], p, 0);
  }
}
